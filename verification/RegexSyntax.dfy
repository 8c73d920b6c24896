/** The concrete and the abstract syntax of Google Test's simple regular expressions.

    A C string is a `string` here, and its terminating NUL is the end of the sequence.
    The abstract syntax (`Regex`) is the reference: a string is a valid simple regular
    expression exactly when it is the rendering of a well-formed abstract one. */
module RegexSyntax {
  import opened Basics

  // ----- character classification -----

  predicate IsInSet(ch: char, chars: string) {
    ch in chars
  }

  predicate IsAsciiDigit(ch: char) {
    '0' <= ch <= '9'
  }

  predicate IsAsciiPunct(ch: char) {
    IsInSet(ch, "^-!\"#$%&'()*+,./:;<=>?@[\\]_`{|}~")
  }

  predicate IsRepeat(ch: char): (b: bool)
    ensures b <==> ch == '?' || ch == '*' || ch == '+'
  {
    IsInSet(ch, "?*+")
  }

  /** After one of these characters no '?', '*' or '+' may follow. */
  predicate CannotBeRepeated(ch: char): (b: bool)
    ensures b <==> ch == '^' || ch == '$' || IsRepeat(ch)
  {
    IsInSet(ch, "^$?*+")
  }

  predicate IsUnsupported(ch: char): (b: bool)
    ensures b <==> ch == '(' || ch == ')' || ch == '[' || ch == ']' || ch == '{' || ch == '}' || ch == '|'
  {
    IsInSet(ch, "()[]{}|")
  }

  predicate IsAsciiWhiteSpace(ch: char) {
    IsInSet(ch, [' ', FORM_FEED, '\n', '\r', '\t', VERTICAL_TAB])
  }

  predicate IsAsciiWordChar(ch: char) {
    'a' <= ch <= 'z' || 'A' <= ch <= 'Z' || '0' <= ch <= '9' || ch == '_'
  }

  predicate IsValidEscape(c: char) {
    IsAsciiPunct(c) || IsInSet(c, "dDfnrsStvwW")
  }

  const FORM_FEED: char := 12 as char
  const VERTICAL_TAB: char := 11 as char

  // ----- abstract syntax -----

  datatype Atom = Atom(escaped: bool, c: char)

  datatype Repeat = Once | Optional | Star | Plus

  /** A pattern without the leading '^': repeated atoms, then possibly a final '$'. */
  datatype Pattern = End | Dollar | Item(atom: Atom, rep: Repeat, rest: Pattern)

  datatype Regex = Regex(anchored: bool, tail: Pattern)

  predicate ValidAtom(a: Atom) {
    if a.escaped then IsValidEscape(a.c) else a.c != '\\' && !CannotBeRepeated(a.c) && !IsUnsupported(a.c)
  }

  predicate WellFormed(p: Pattern) {
    p.Item? ==> ValidAtom(p.atom) && WellFormed(p.rest)
  }

  function RenderAtom(a: Atom): string {
    if a.escaped then ['\\', a.c] else [a.c]
  }

  function RenderRepeat(r: Repeat): string {
    match r
    case Once => ""
    case Optional => "?"
    case Star => "*"
    case Plus => "+"
  }

  function Render(p: Pattern): string {
    match p
    case End => ""
    case Dollar => "$"
    case Item(a, r, rest) => RenderAtom(a) + (RenderRepeat(r) + Render(rest))
  }

  function RenderRegex(re: Regex): string {
    (if re.anchored then "^" else "") + Render(re.tail)
  }

  /** The rendering of some well-formed abstract regular expression. */
  ghost predicate ValidRegex(s: string) {
    exists re: Regex :: WellFormed(re.tail) && RenderRegex(re) == s
  }

  // ----- the scan performed by the validator -----

  /** What the validator's loop decides about the rest of a regex, past its first
      character, when the previous token could (or could not) be repeated. */
  predicate Scan(s: string, repeatable: bool) {
    if s == "" then true
    else if s[0] == '\\' then |s| > 1 && IsValidEscape(s[1]) && Scan(s[2..], true)
    else
      && s[0] != '^'
      && (s[0] == '$' ==> |s| == 1)
      && !IsUnsupported(s[0])
      && (IsRepeat(s[0]) ==> repeatable)
      && Scan(s[1..], !CannotBeRepeated(s[0]))
  }

  predicate ScanRegex(s: string) {
    if s != "" && s[0] == '^' then Scan(s[1..], false) else Scan(s, false)
  }

  /** Reads the abstract syntax off a scanned string. */
  function Parse(s: string): (p: Pattern)
    requires Scan(s, false)
    ensures WellFormed(p) && Render(p) == s
  {
    if s == "" then End
    else if s == "$" then Dollar
    else
      var a := if s[0] == '\\' then Atom(true, s[1]) else Atom(false, s[0]);
      var t := s[|RenderAtom(a)|..];
      assert s == RenderAtom(a) + t;
      assert ValidAtom(a) && Scan(t, true);
      if t != "" && IsRepeat(t[0]) then
        var r := if t[0] == '?' then Optional else if t[0] == '*' then Star else Plus;
        assert t == RenderRepeat(r) + t[1..];
        Item(a, r, Parse(t[1..]))
      else
        assert t == RenderRepeat(Once) + t;
        Item(a, Once, Parse(t))
  }

  lemma {:induction false} RenderedPatternScans(p: Pattern, repeatable: bool)
    requires WellFormed(p)
    ensures Scan(Render(p), repeatable)
  {
    match p
    case End =>
    case Dollar =>
      assert Scan("$"[1..], false);
    case Item(a, r, rest) =>
      var t := RenderRepeat(r) + Render(rest);
      RenderedPatternScans(rest, r.Once?);
      assert Scan(t, true) by {
        if r.Once? {
          assert t == Render(rest);
        } else {
          assert t[1..] == Render(rest);
        }
      }
      assert Render(p)[|RenderAtom(a)|..] == t;
  }

  /** A well-formed pattern never starts with '^'. */
  lemma NoCaretAtHead(p: Pattern)
    requires WellFormed(p)
    ensures Render(p) == "" || Render(p)[0] != '^'
  {
  }

  /** The validator's scan accepts exactly the renderings of well-formed syntax. */
  lemma ScanIsValidity(s: string)
    ensures ScanRegex(s) <==> ValidRegex(s)
  {
    if ScanRegex(s) {
      var re := SyntaxOf(s);
    }
    if ValidRegex(s) {
      var re: Regex :| WellFormed(re.tail) && RenderRegex(re) == s;
      RenderedPatternScans(re.tail, false);
      NoCaretAtHead(re.tail);
      if re.anchored {
        assert s[1..] == Render(re.tail);
      } else {
        assert s == Render(re.tail);
      }
    }
  }

  function SyntaxOf(s: string): (re: Regex)
    requires ScanRegex(s)
    ensures WellFormed(re.tail) && RenderRegex(re) == s
  {
    if s != "" && s[0] == '^' then
      assert s == "^" + s[1..];
      Regex(true, Parse(s[1..]))
    else
      assert s == "" + s;
      Regex(false, Parse(s))
  }

  lemma NoRepeatAtHead(p: Pattern)
    requires WellFormed(p)
    ensures Render(p) == "" || !IsRepeat(Render(p)[0])
  {
  }

  /** Parsing reads one item off the front. */
  lemma ParseItem(s: string, a: Atom, r: Repeat, u: string)
    requires s == RenderAtom(a) + (RenderRepeat(r) + u) && Scan(s, false)
    requires ValidAtom(a) && (u == "" || !IsRepeat(u[0]))
    ensures Scan(u, false) && Parse(s) == Item(a, r, Parse(u))
  {
    var t := RenderRepeat(r) + u;
    assert s != "$" && s[|RenderAtom(a)|..] == t;
    assert a == if s[0] == '\\' then Atom(true, s[1]) else Atom(false, s[0]);
    assert if r.Once? then t == u else t[1..] == u;
    assert r.Once? <==> t == "" || !IsRepeat(t[0]);
  }

  /** The concrete syntax is unambiguous: parsing undoes rendering. */
  lemma {:induction false} ParseRender(p: Pattern)
    requires WellFormed(p)
    ensures Scan(Render(p), false) && Parse(Render(p)) == p
  {
    RenderedPatternScans(p, false);
    match p
    case End =>
    case Dollar =>
    case Item(a, r, rest) =>
      hide Scan, Parse;
      NoRepeatAtHead(rest);
      ParseItem(Render(p), a, r, Render(rest));
      ParseRender(rest);
  }

  lemma RenderIsInjective(re1: Regex, re2: Regex)
    requires WellFormed(re1.tail) && WellFormed(re2.tail)
    requires RenderRegex(re1) == RenderRegex(re2)
    ensures re1 == re2
  {
    NoCaretAtHead(re1.tail);
    NoCaretAtHead(re2.tail);
    assert re1.anchored == re2.anchored by {
      assert !re1.anchored ==> RenderRegex(re1) == Render(re1.tail);
      assert !re2.anchored ==> RenderRegex(re2) == Render(re2.tail);
    }
    var k := if re1.anchored then 1 else 0;
    assert Render(re1.tail) == RenderRegex(re1)[k..] == RenderRegex(re2)[k..] == Render(re2.tail);
    ParseRender(re1.tail);
    ParseRender(re2.tail);
  }

  // ----- the validator -----

  method ValidateRegex(regex: Option<string>) returns (isValid: bool)
    ensures isValid <==> regex.Some? && ValidRegex(regex.value)
  {
    hide ValidRegex, IsUnsupported, IsRepeat, CannotBeRepeated, IsValidEscape;
    if regex.None? {
      return false;
    }
    var s := regex.value;
    ScanIsValidity(s);
    isValid := true;
    var prevRepeatable := false;
    var i := 0;
    while i < |s|
      invariant 0 <= i <= |s|
      invariant i == 0 ==> isValid && !prevRepeatable
      invariant i > 0 ==> (ScanRegex(s) <==> isValid && Scan(s[i..], prevRepeatable))
    {
      assert s[i..][1..] == s[i + 1..];
      if s[i] == '\\' {
        i := i + 1;
        if i == |s| {
          return false;
        }
        assert s[i - 1..][2..] == s[i + 1..];
        if !IsValidEscape(s[i]) {
          isValid := false;
        }
        prevRepeatable := true;
      } else {
        var ch := s[i];
        if ch == '^' && i > 0 {
          isValid := false;
        } else if ch == '$' && i + 1 < |s| {
          isValid := false;
        } else if IsUnsupported(ch) {
          isValid := false;
        } else if IsRepeat(ch) && !prevRepeatable {
          isValid := false;
        }
        prevRepeatable := !CannotBeRepeated(ch);
      }
      i := i + 1;
    }
  }

  // ----- which characters -----

  predicate IsLetterOrDigit(c: char) {
    'a' <= c <= 'z' || 'A' <= c <= 'Z' || '0' <= c <= '9'
  }

  lemma ListedIsGraphic(c: char)
    requires IsAsciiPunct(c)
    ensures '!' <= c <= '~' && !IsLetterOrDigit(c)
  {
  }

  lemma GraphicIsListed(c: char)
    requires '!' <= c <= '~' && !IsLetterOrDigit(c)
    ensures IsAsciiPunct(c)
  {
    var list := "^-!\"#$%&'()*+,./:;<=>?@[\\]_`{|}~";
    var k := c as int;
    var place :=
      if k == 94 then 0 else if k == 45 then 1
      else if k <= 44 then k - 31 else if k <= 47 then k - 32
      else if k <= 64 then k - 42 else if k <= 93 then k - 68
      else if k <= 96 then k - 69 else k - 95;
    assert list[place] == c;
  }

  /** The punctuation characters are the graphic ASCII characters that are neither
      letters nor digits: none is missing from the list and none is too many. */
  lemma PunctuationIsTheRestOfGraphicAscii(c: char)
    ensures IsAsciiPunct(c) <==> '!' <= c <= '~' && !IsLetterOrDigit(c)
  {
    if IsAsciiPunct(c) {
      ListedIsGraphic(c);
    } else if '!' <= c <= '~' && !IsLetterOrDigit(c) {
      GraphicIsListed(c);
    }
  }

  /** A backslash may stand before punctuation and before eleven letters. */
  lemma ValidEscapeIff(c: char)
    ensures IsValidEscape(c) <==>
            || ('!' <= c <= '~' && !IsLetterOrDigit(c))
            || c in {'d', 'D', 'f', 'n', 'r', 's', 'S', 't', 'v', 'w', 'W'}
  {
    PunctuationIsTheRestOfGraphicAscii(c);
    var letters := "dDfnrsStvwW";
    assert letters[0] == 'd' && letters[1] == 'D' && letters[2] == 'f' && letters[3] == 'n' && letters[4] == 'r';
    assert letters[5] == 's' && letters[6] == 'S' && letters[7] == 't' && letters[8] == 'v' && letters[9] == 'w';
    assert letters[10] == 'W';
  }

  /** The patterns of one escaped character that are valid. */
  lemma EscapedCharacterIsValidIff(c: char)
    ensures ValidRegex(['\\', c]) <==>
            || ('!' <= c <= '~' && !IsLetterOrDigit(c))
            || c in {'d', 'D', 'f', 'n', 'r', 's', 'S', 't', 'v', 'w', 'W'}
  {
    ScanIsValidity(['\\', c]);
    ValidEscapeIff(c);
    assert Scan(['\\', c][2..], true);
  }

  /** The patterns of one character that are valid: also '^' and '$' alone. */
  lemma SingleCharacterIsValidIff(c: char)
    ensures ValidRegex([c]) <==> c !in {'\\', '?', '*', '+', '(', ')', '[', ']', '{', '}', '|'}
  {
    ScanIsValidity([c]);
    assert Scan([c][1..], false) && Scan([c][1..], true);
  }
}
