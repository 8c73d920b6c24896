/** The class `RE`: a pattern, the pattern used for a full match, and their validity. */
module RegexClass {
  import opened Basics
  import opened RegexSyntax
  import opened RegexMatch

  /** The buffer that `RE::Init` fills: '^' in front unless there is one, '$' behind
      unless the last character of the pattern is one. */
  function FullPattern(s: string): string {
    (if s != "" && s[0] == '^' then "" else "^") + s + (if s != "" && s[|s| - 1] == '$' then "" else "$")
  }

  /** The last atom is an escaped, unrepeated '$'. The raw last-character test of
      `RE::Init` cannot tell it from the end-of-string anchor. */
  predicate EndsInEscapedDollar(p: Pattern) {
    p.Item? && if p.rest.End? then p.rep.Once? && p.atom == Atom(true, '$') else EndsInEscapedDollar(p.rest)
  }

  function WithDollar(p: Pattern): (q: Pattern)
    ensures WellFormed(p) ==> WellFormed(q)
    ensures EndsInDollar(q)
  {
    match p
    case End => Dollar
    case Dollar => Dollar
    case Item(a, r, rest) => Item(a, r, WithDollar(rest))
  }

  /** The abstract syntax of the full pattern. */
  function FullSyntax(re: Regex): Regex {
    Regex(true, if EndsInEscapedDollar(re.tail) then re.tail else WithDollar(re.tail))
  }

  lemma {:induction false} LastCharacter(p: Pattern)
    requires WellFormed(p) && !p.End?
    ensures var s := Render(p);
            s != "" && (s[|s| - 1] == '$' <==> EndsInDollar(p) || EndsInEscapedDollar(p))
  {
    match p
    case Dollar =>
    case Item(a, r, rest) =>
      if !rest.End? {
        LastCharacter(rest);
      } else if r.Once? {
        assert Render(p) == RenderAtom(a);
      } else {
        assert Render(p) == RenderAtom(a) + RenderRepeat(r);
      }
  }

  lemma {:induction false} RenderWithDollar(p: Pattern)
    ensures Render(WithDollar(p)) == if EndsInDollar(p) then Render(p) else Render(p) + "$"
  {
    match p
    case End =>
    case Dollar =>
    case Item(a, r, rest) =>
      RenderWithDollar(rest);
  }

  /** `RE::Init` turns a valid pattern into a valid full pattern, with this syntax. */
  lemma FullPatternIsValid(re: Regex)
    requires WellFormed(re.tail)
    ensures WellFormed(FullSyntax(re).tail)
    ensures RenderRegex(FullSyntax(re)) == FullPattern(RenderRegex(re))
    ensures ValidRegex(FullPattern(RenderRegex(re)))
  {
    var p, s := re.tail, RenderRegex(re);
    FrontOfFullPattern(re);
    BackOfFullPattern(re);
    BackOfFullSyntax(p);
    var front := if s != "" && s[0] == '^' then "" else "^";
    var back := if s != "" && s[|s| - 1] == '$' then "" else "$";
    calc {
      RenderRegex(FullSyntax(re));
      "^" + (Render(p) + back);
      ("^" + Render(p)) + back;
      (front + s) + back;
      FullPattern(s);
    }
  }

  lemma BackOfFullSyntax(p: Pattern)
    ensures Render(if EndsInEscapedDollar(p) then p else WithDollar(p))
            == Render(p) + if EndsInDollar(p) || EndsInEscapedDollar(p) then "" else "$"
  {
    EscapedDollarExcludesAnchor(p);
    RenderWithDollar(p);
  }

  lemma FrontOfFullPattern(re: Regex)
    requires WellFormed(re.tail)
    ensures var s := RenderRegex(re);
            (if s != "" && s[0] == '^' then "" else "^") + s == "^" + Render(re.tail)
  {
    NoCaretAtHead(re.tail);
    if !re.anchored {
      assert RenderRegex(re) == Render(re.tail);
    }
  }

  lemma BackOfFullPattern(re: Regex)
    requires WellFormed(re.tail)
    ensures var s := RenderRegex(re);
            s != "" && s[|s| - 1] == '$' <==> EndsInDollar(re.tail) || EndsInEscapedDollar(re.tail)
  {
    if !re.tail.End? {
      LastCharacter(re.tail);
      var s, t := RenderRegex(re), Render(re.tail);
      assert s[|s| - 1] == t[|t| - 1];
    }
  }

  lemma EscapedDollarExcludesAnchor(p: Pattern)
    ensures !(EndsInDollar(p) && EndsInEscapedDollar(p))
  {
  }

  // ----- what a full match decides -----

  lemma {:induction false} LanguageWithDollar(p: Pattern, w: string)
    ensures InLanguage(WithDollar(p), w) <==> InLanguage(p, w)
  {
    match p
    case End =>
    case Dollar =>
    case Item(a, r, rest) =>
      forall k | 0 <= k <= |w|
        ensures InLanguage(WithDollar(rest), w[k..]) <==> InLanguage(rest, w[k..])
      {
        LanguageWithDollar(rest, w[k..]);
      }
  }

  /** Matching the full pattern decides membership of the whole subject, unless the
      pattern ends in an escaped '$': then it only decides whether a prefix is in the
      language. */
  lemma FullMatchMeaning(re: Regex, str: string)
    ensures MatchesSubstring(FullSyntax(re), str) <==>
            if EndsInEscapedDollar(re.tail) then exists n :: 0 <= n <= |str| && InLanguage(re.tail, str[..n])
            else InLanguage(re.tail, str)
  {
    EscapedDollarExcludesAnchor(re.tail);
    assert str[0..|str|] == str;
    if EndsInEscapedDollar(re.tail) {
      assert forall n :: 0 <= n <= |str| ==> str[..n] == str[0..n];
    } else {
      LanguageWithDollar(re.tail, str);
    }
  }

  /** A character matching a valid atom. */
  function SampleChar(a: Atom): (ch: char)
    requires ValidAtom(a)
    ensures AtomMatchesChar(a.escaped, a.c, ch)
  {
    if !a.escaped then (if a.c == '.' then 'a' else a.c)
    else
      match a.c
      case 'd' => '0'
      case 'D' => 'a'
      case 'f' => FORM_FEED
      case 'n' => '\n'
      case 'r' => '\r'
      case 's' => assert AtomMatchesChar(true, 's', [' ', FORM_FEED][0]); ' '
      case 'S' => 'a'
      case 't' => '\t'
      case 'v' => VERTICAL_TAB
      case 'w' => 'a'
      case 'W' => ' '
      case _ => a.c
  }

  /** The language of a well-formed pattern is never empty. */
  function SampleWord(p: Pattern): (w: string)
    requires WellFormed(p)
    ensures InLanguage(p, w)
  {
    if p.Item? then
      var v := SampleWord(p.rest);
      var w := [SampleChar(p.atom)] + v;
      assert w[..1] == [SampleChar(p.atom)] && w[1..] == v;
      w
    else ""
  }

  lemma {:induction false} EscapedDollarEndsEveryWord(p: Pattern, w: string)
    requires EndsInEscapedDollar(p) && InLanguage(p, w)
    ensures w != "" && w[|w| - 1] == '$'
  {
    var k :| 0 <= k <= |w| && RepeatAllows(p.rep, k) && AllMatch(p.atom, w[..k]) && InLanguage(p.rest, w[k..]);
    if p.rest.End? {
      assert w == w[..1] && AtomMatchesChar(true, '$', w[..1][0]);
    } else {
      EscapedDollarEndsEveryWord(p.rest, w[k..]);
    }
  }

  /** `FullMatch` means "the whole subject is in the language", for every subject, exactly
      when the pattern does not end in an escaped '$'. */
  lemma FullMatchIsWholeMatchIff(re: Regex)
    requires WellFormed(re.tail)
    ensures (forall str: string :: MatchesSubstring(FullSyntax(re), str) <==> InLanguage(re.tail, str))
            <==> !EndsInEscapedDollar(re.tail)
  {
    forall str: string
      ensures !EndsInEscapedDollar(re.tail) ==> (MatchesSubstring(FullSyntax(re), str) <==> InLanguage(re.tail, str))
    {
      FullMatchMeaning(re, str);
    }
    if EndsInEscapedDollar(re.tail) {
      var w := SampleWord(re.tail);
      var longer := w + "x";
      assert longer[..|w|] == w;
      FullMatchMeaning(re, longer);
      if InLanguage(re.tail, longer) {
        EscapedDollarEndsEveryWord(re.tail, longer);
        assert false;
      }
    }
  }

  /** The pattern `a\$` fully "matches" the subject `a$b`. */
  lemma EscapedDollarCounterexample()
    ensures var re := Regex(false, Item(Atom(false, 'a'), Once, Item(Atom(true, '$'), Once, End)));
            && WellFormed(re.tail) && RenderRegex(re) == "a\\$"
            && MatchesSubstring(FullSyntax(re), "a$b") && !InLanguage(re.tail, "a$b")
  {
    var last := Item(Atom(true, '$'), Once, End);
    var re := Regex(false, Item(Atom(false, 'a'), Once, last));
    assert IsAsciiPunct("^-!\"#$"[5]);
    assert RenderRegex(re) == ['a'] + (['\\', '$'] + "");
    var w := "a$b"[..2];
    assert InLanguage(last, w[1..]) by {
      assert w[1..][..1] == "$" && w[1..][1..] == "";
    }
    assert AllMatch(Atom(false, 'a'), w[..1]);
    assert InLanguage(re.tail, w);
    FullMatchMeaning(re, "a$b");
    if InLanguage(re.tail, "a$b") {
      EscapedDollarEndsEveryWord(re.tail, "a$b");
      assert false;
    }
  }

  // ----- the class -----

  class RE {
    var pattern: Option<string>
    var fullPattern: Option<string>
    var isValid: bool

    predicate Valid()
      reads this
    {
      isValid ==>
        && pattern.Some? && ScanRegex(pattern.value)
        && fullPattern == Some(FullPattern(pattern.value))
    }

    ghost function Syntax(): (re: Regex)
      requires Valid() && isValid
      reads this
      ensures WellFormed(re.tail) && RenderRegex(re) == pattern.value
    {
      SyntaxOf(pattern.value)
    }

    method Init(regex: Option<string>)
      modifies this
      ensures Valid() && pattern == regex
      ensures isValid <==> regex.Some? && ValidRegex(regex.value)
      ensures !isValid ==> fullPattern.None?
      ensures isValid ==> ValidRegex(fullPattern.value)
    {
      pattern, fullPattern := None, None;
      if regex.Some? {
        pattern := regex;
      }
      isValid := ValidateRegex(regex);
      if !isValid {
        return;
      }
      var s := regex.value;
      var buffer := "";
      if !(s != "" && s[0] == '^') {
        buffer := buffer + "^";
      }
      buffer := buffer + s;
      if s == "" || s[|s| - 1] != '$' {
        buffer := buffer + "$";
      }
      assert buffer == FullPattern(s);
      ScanIsValidity(s);
      FullPatternIsValid(SyntaxOf(s));
      fullPattern := Some(buffer);
    }

    /** True for exactly the subjects wholly in the language, when the pattern does not
        end in an escaped '$'; for one that does, for those with a prefix in it. */
    static method FullMatch(str: Option<string>, re: RE) returns (matched: bool)
      requires re.Valid()
      requires str.Some? ==> |str.value| <= MAX_COUNT
      ensures matched ==> re.isValid && str.Some?
      ensures re.isValid && str.Some? ==>
                (matched <==>
                 if EndsInEscapedDollar(re.Syntax().tail)
                 then exists n :: 0 <= n <= |str.value| && InLanguage(re.Syntax().tail, str.value[..n])
                 else InLanguage(re.Syntax().tail, str.value))
    {
      if !re.isValid {
        return false;
      }
      ghost var syntax := re.Syntax();
      FullPatternIsValid(syntax);
      matched := MatchRegexAnywhere(re.fullPattern, str, FullSyntax(syntax));
      if str.Some? {
        FullMatchMeaning(syntax, str.value);
      }
    }

    static method PartialMatch(str: Option<string>, re: RE) returns (matched: bool)
      requires re.Valid()
      requires str.Some? ==> |str.value| <= MAX_COUNT
      ensures matched <==> re.isValid && str.Some? && MatchesSubstring(re.Syntax(), str.value)
    {
      if !re.isValid {
        return false;
      }
      matched := MatchRegexAnywhere(re.pattern, str, re.Syntax());
    }
  }
}
