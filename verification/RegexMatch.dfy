/** The matcher of Google Test's simple regular expressions, verified against the
    language that a pattern denotes. */
module RegexMatch {
  import opened Basics
  import opened RegexSyntax

  /** One less than the largest `size_t`: the repetition bound of '*' and '+', and also
      the largest possible length of a C string. */
  const MAX_COUNT: nat := 0xFFFF_FFFF_FFFF_FFFF - 1

  // ----- atoms -----

  predicate AtomMatchesChar(escaped: bool, patternChar: char, ch: char) {
    if escaped then
      match patternChar
      case 'd' => IsAsciiDigit(ch)
      case 'D' => !IsAsciiDigit(ch)
      case 'f' => ch == FORM_FEED
      case 'n' => ch == '\n'
      case 'r' => ch == '\r'
      case 's' => IsAsciiWhiteSpace(ch)
      case 'S' => !IsAsciiWhiteSpace(ch)
      case 't' => ch == '\t'
      case 'v' => ch == VERTICAL_TAB
      case 'w' => IsAsciiWordChar(ch)
      case 'W' => !IsAsciiWordChar(ch)
      case _ => IsAsciiPunct(patternChar) && patternChar == ch
    else
      (patternChar == '.' && ch != '\n') || patternChar == ch
  }

  /** The character class of an atom, by character code. */
  ghost predicate Denotes(a: Atom, ch: char) {
    var code := ch as int;
    var digit := 48 <= code <= 57;
    var space := code == 32 || 9 <= code <= 13;
    var word := digit || 65 <= code <= 90 || 97 <= code <= 122 || code == 95;
    if !a.escaped then ch == a.c || (a.c == '.' && code != 10)
    else if a.c == 'd' || a.c == 'D' then digit == (a.c == 'd')
    else if a.c == 's' || a.c == 'S' then space == (a.c == 's')
    else if a.c == 'w' || a.c == 'W' then word == (a.c == 'w')
    else if a.c == 't' then code == 9
    else if a.c == 'n' then code == 10
    else if a.c == 'v' then code == 11
    else if a.c == 'f' then code == 12
    else if a.c == 'r' then code == 13
    else ch == a.c
  }

  lemma AtomMeaning(a: Atom, ch: char)
    requires ValidAtom(a)
    ensures AtomMatchesChar(a.escaped, a.c, ch) <==> Denotes(a, ch)
  {
    if a.escaped {
      ValidEscapeIff(a.c);
      PunctuationIsTheRestOfGraphicAscii(a.c);
      if a.c == 's' || a.c == 'S' {
        WhiteSpaceMeaning(ch);
      }
    }
  }

  lemma WhiteSpaceMeaning(ch: char)
    ensures IsAsciiWhiteSpace(ch) <==> ch as int == 32 || 9 <= ch as int <= 13
  {
    var spaces := [' ', FORM_FEED, '\n', '\r', '\t', VERTICAL_TAB];
    assert spaces[0] == ' ' && spaces[1] as int == 12 && spaces[2] as int == 10;
    assert spaces[3] as int == 13 && spaces[4] as int == 9 && spaces[5] as int == 11;
  }

  // ----- the language of a pattern -----

  ghost predicate AllMatch(a: Atom, w: string) {
    forall k :: 0 <= k < |w| ==> AtomMatchesChar(a.escaped, a.c, w[k])
  }

  predicate RepeatAllows(r: Repeat, n: nat) {
    match r
    case Once => n == 1
    case Optional => n <= 1
    case Star => true
    case Plus => n >= 1
  }

  /** `w` is a concatenation of one block per item, each block an allowed number of
      characters matching the item's atom. */
  ghost predicate InLanguage(p: Pattern, w: string) {
    match p
    case End => w == ""
    case Dollar => w == ""
    case Item(a, r, rest) =>
      exists k :: 0 <= k <= |w| && RepeatAllows(r, k) && AllMatch(a, w[..k]) && InLanguage(rest, w[k..])
  }

  /** `k` characters in front belong to the first item, the others to the rest. */
  ghost predicate TakesAt(a: Atom, r: Repeat, rest: Pattern, w: string, k: nat) {
    k <= |w| && RepeatAllows(r, k) && AllMatch(a, w[..k]) && InLanguage(rest, w[k..])
  }

  lemma TakesSome(a: Atom, r: Repeat, rest: Pattern, w: string)
    ensures InLanguage(Item(a, r, rest), w) <==> exists k: nat :: TakesAt(a, r, rest, w, k)
  {
    if InLanguage(Item(a, r, rest), w) {
      var k :| 0 <= k <= |w| && RepeatAllows(r, k) && AllMatch(a, w[..k]) && InLanguage(rest, w[k..]);
      assert TakesAt(a, r, rest, w, k);
    }
  }

  lemma AllMatchFirst(a: Atom, c: char, w: string)
    ensures AllMatch(a, [c] + w) <==> AtomMatchesChar(a.escaped, a.c, c) && AllMatch(a, w)
  {
    hide AtomMatchesChar;
    var all := [c] + w;
    if AllMatch(a, all) {
      assert all[0] == c && forall k :: 0 <= k < |w| ==> w[k] == all[k + 1];
    }
  }

  /** An atom that is not repeated takes one character of its class. */
  lemma OnceTakesOne(a: Atom, rest: Pattern, w: string)
    requires ValidAtom(a)
    ensures InLanguage(Item(a, Once, rest), w) <==> w != "" && Denotes(a, w[0]) && InLanguage(rest, w[1..])
  {
    hide AtomMatchesChar, Denotes;
    TakesSome(a, Once, rest, w);
    if w != "" {
      AtomMeaning(a, w[0]);
      AllMatchFirst(a, w[0], "");
      assert w[..1] == [w[0]] + "";
      assert TakesAt(a, Once, rest, w, 1) <==> Denotes(a, w[0]) && InLanguage(rest, w[1..]);
    }
  }

  /** `a?` is nothing or `a`. */
  lemma OptionalIsNothingOrOnce(a: Atom, rest: Pattern, w: string)
    ensures InLanguage(Item(a, Optional, rest), w) <==> InLanguage(rest, w) || InLanguage(Item(a, Once, rest), w)
  {
    TakesSome(a, Optional, rest, w);
    TakesSome(a, Once, rest, w);
    assert w[0..] == w;
    assert TakesAt(a, Optional, rest, w, 0) <==> InLanguage(rest, w);
    assert TakesAt(a, Optional, rest, w, 1) <==> TakesAt(a, Once, rest, w, 1);
  }

  /** `a*` is nothing or `a+`. */
  lemma StarIsNothingOrPlus(a: Atom, rest: Pattern, w: string)
    ensures InLanguage(Item(a, Star, rest), w) <==> InLanguage(rest, w) || InLanguage(Item(a, Plus, rest), w)
  {
    TakesSome(a, Star, rest, w);
    TakesSome(a, Plus, rest, w);
    assert w[0..] == w;
    assert TakesAt(a, Star, rest, w, 0) <==> InLanguage(rest, w);
    assert forall k: nat :: k > 0 ==> (TakesAt(a, Star, rest, w, k) <==> TakesAt(a, Plus, rest, w, k));
  }

  lemma OneMoreTaken(a: Atom, rest: Pattern, w: string, k: nat)
    requires ValidAtom(a) && w != ""
    ensures TakesAt(a, Plus, rest, w, k + 1) <==> Denotes(a, w[0]) && TakesAt(a, Star, rest, w[1..], k)
  {
    AtomMeaning(a, w[0]);
    if k < |w| {
      assert w[..k + 1] == [w[0]] + w[1..][..k] && w[k + 1..] == w[1..][k..];
      AllMatchFirst(a, w[0], w[1..][..k]);
    }
  }

  /** `a+` is `a` and then `a*`. */
  lemma PlusIsOnceAndStar(a: Atom, rest: Pattern, w: string)
    requires ValidAtom(a)
    ensures InLanguage(Item(a, Plus, rest), w) <==> InLanguage(Item(a, Once, Item(a, Star, rest)), w)
  {
    TakesSome(a, Plus, rest, w);
    OnceTakesOne(a, Item(a, Star, rest), w);
    if w != "" {
      TakesSome(a, Star, rest, w[1..]);
      if k: nat :| TakesAt(a, Plus, rest, w, k) {
        OneMoreTaken(a, rest, w, k - 1);
      }
      if k: nat :| TakesAt(a, Star, rest, w[1..], k) {
        OneMoreTaken(a, rest, w, k);
      }
    }
  }

  predicate EndsInDollar(p: Pattern) {
    p.Dollar? || (p.Item? && EndsInDollar(p.rest))
  }

  /** Some prefix of `s` is in the language, the whole of `s` when the pattern ends in '$'. */
  ghost predicate MatchesPrefix(p: Pattern, s: string) {
    exists n :: 0 <= n <= |s| && InLanguage(p, s[..n]) && (EndsInDollar(p) ==> n == |s|)
  }

  /** Some substring of `s` is in the language, anchored as '^' and '$' demand. */
  ghost predicate MatchesSubstring(re: Regex, s: string) {
    exists i, j :: 0 <= i <= j <= |s| && InLanguage(re.tail, s[i..j])
                   && (re.anchored ==> i == 0) && (EndsInDollar(re.tail) ==> j == |s|)
  }

  /** `k` characters are a possible choice for the first item of a pattern. */
  ghost predicate SplitsAt(a: Atom, r: Repeat, rest: Pattern, s: string, k: nat) {
    k <= |s| && RepeatAllows(r, k) && AllMatch(a, s[..k]) && MatchesPrefix(rest, s[k..])
  }

  lemma PrefixMatches(p: Pattern, s: string, n: nat)
    requires n <= |s| && InLanguage(p, s[..n]) && (EndsInDollar(p) ==> n == |s|)
    ensures MatchesPrefix(p, s)
  {
  }

  lemma SplitOfWord(a: Atom, r: Repeat, rest: Pattern, w: string) returns (k: nat)
    requires InLanguage(Item(a, r, rest), w)
    ensures k <= |w| && RepeatAllows(r, k) && AllMatch(a, w[..k]) && InLanguage(rest, w[k..])
  {
    k :| 0 <= k <= |w| && RepeatAllows(r, k) && AllMatch(a, w[..k]) && InLanguage(rest, w[k..]);
  }

  lemma WordSplits(a: Atom, r: Repeat, rest: Pattern, s: string, n: nat) returns (k: nat)
    requires n <= |s| && InLanguage(Item(a, r, rest), s[..n]) && (EndsInDollar(rest) ==> n == |s|)
    ensures SplitsAt(a, r, rest, s, k)
  {
    hide InLanguage, AllMatch, RepeatAllows, EndsInDollar, MatchesPrefix;
    k := SplitOfWord(a, r, rest, s[..n]);
    SlicesOfPrefix(s, n, k);
    PrefixMatches(rest, s[k..], n - k);
  }

  lemma SlicesOfPrefix(s: string, n: nat, k: nat)
    requires k <= n <= |s|
    ensures s[..n][..k] == s[..k] && s[..n][k..] == s[k..][..n - k]
  {
  }

  lemma ItemSplits(a: Atom, r: Repeat, rest: Pattern, s: string)
    requires MatchesPrefix(Item(a, r, rest), s)
    ensures exists k: nat :: SplitsAt(a, r, rest, s, k)
  {
    hide InLanguage;
    var p := Item(a, r, rest);
    var n :| 0 <= n <= |s| && InLanguage(p, s[..n]) && (EndsInDollar(p) ==> n == |s|);
    var k := WordSplits(a, r, rest, s, n);
  }

  lemma SplitMatches(a: Atom, r: Repeat, rest: Pattern, s: string, k: nat)
    requires SplitsAt(a, r, rest, s, k)
    ensures MatchesPrefix(Item(a, r, rest), s)
  {
    var p, t := Item(a, r, rest), s[k..];
    var m :| 0 <= m <= |t| && InLanguage(rest, t[..m]) && (EndsInDollar(rest) ==> m == |t|);
    var w := s[..k + m];
    assert w[..k] == s[..k] && w[k..] == t[..m];
    assert InLanguage(p, w);
  }

  lemma MatchesPrefixOfItem(a: Atom, r: Repeat, rest: Pattern, s: string)
    ensures MatchesPrefix(Item(a, r, rest), s) <==> exists k: nat :: SplitsAt(a, r, rest, s, k)
  {
    if MatchesPrefix(Item(a, r, rest), s) {
      ItemSplits(a, r, rest, s);
    }
    if k: nat :| SplitsAt(a, r, rest, s, k) {
      SplitMatches(a, r, rest, s, k);
    }
  }

  // ----- the matcher -----

  /** The C function receives `regex` alone; the ghost argument names the syntax that
      the caller promises it has. That every tail the recursion reaches is again the
      rendering of well-formed syntax is proved at the calls. */
  method MatchRegexAtHead(regex: string, str: string, ghost p: Pattern) returns (matched: bool)
    requires WellFormed(p) && regex == Render(p)
    requires |str| <= MAX_COUNT
    ensures matched <==> MatchesPrefix(p, str)
    decreases |regex|, 0
  {
    if regex == "" {
      assert p.End? && InLanguage(p, str[..0]);
      return true;
    }
    if regex[0] == '$' {
      assert p.Dollar?;
      assert MatchesPrefix(p, str) <==> str == "" by {
        assert InLanguage(p, str[..0]);
      }
      return str == "";
    }
    var escaped := regex[0] == '\\';
    var c := if escaped then regex[1] else regex[0];
    var next := if escaped then regex[2..] else regex[1..];
    ghost var a, r, rest := p.atom, p.rep, p.rest;
    assert a == Atom(escaped, c) && next == RenderRepeat(r) + Render(rest);
    MatchesPrefixOfItem(a, r, rest, str);
    NoRepeatAtHead(rest);
    hide MatchesPrefix, InLanguage, EndsInDollar;
    if next != "" && IsRepeat(next[0]) {
      assert next == RenderRepeat(r) + next[1..];
      matched := MatchRepetitionAndRegexAtHead(escaped, c, next[0], next[1..], str, r, rest);
    } else {
      assert r.Once? && next == Render(rest);
      assert forall k: nat :: SplitsAt(a, r, rest, str, k) ==> k == 1;
      if str != "" && AtomMatchesChar(escaped, c, str[0]) {
        matched := MatchRegexAtHead(next, str[1..], rest);
        assert matched <==> SplitsAt(a, r, rest, str, 1);
      } else {
        assert str != "" ==> str[..1][0] == str[0];
        return false;
      }
    }
  }

  method MatchRepetitionAndRegexAtHead(escaped: bool, c: char, repeat: char, regex: string, str: string,
                                       ghost r: Repeat, ghost rest: Pattern) returns (matched: bool)
    requires RenderRepeat(r) == [repeat]
    requires WellFormed(rest) && regex == Render(rest)
    requires |str| <= MAX_COUNT
    ensures matched <==> exists k: nat :: SplitsAt(Atom(escaped, c), r, rest, str, k)
    decreases |regex|, 1
  {
    ghost var a := Atom(escaped, c);
    var minCount := if repeat == '+' then 1 else 0;
    var maxCount := if repeat == '?' then 1 else MAX_COUNT;
    var i := 0;
    while i <= maxCount
      invariant 0 <= i <= |str| + 1
      invariant i <= |str| ==> AllMatch(a, str[..i])
      invariant forall k: nat :: k < i ==> !SplitsAt(a, r, rest, str, k)
      invariant i <= |str| || i > maxCount
      decreases maxCount + 1 - i
    {
      if i >= minCount {
        var tailMatches := MatchRegexAtHead(regex, str[i..], rest);
        if tailMatches {
          assert SplitsAt(a, r, rest, str, i);
          return true;
        }
      }
      assert !SplitsAt(a, r, rest, str, i);
      if i == |str| || !AtomMatchesChar(escaped, c, str[i]) {
        forall k: nat
          ensures !SplitsAt(a, r, rest, str, k)
        {
          if i < k <= |str| {
            assert str[..k][i] == str[i];
          }
        }
        return false;
      }
      i := i + 1;
    }
    return false;
  }

  method MatchRegexAnywhere(regex: Option<string>, str: Option<string>, ghost re: Regex) returns (matched: bool)
    requires regex.Some? ==> WellFormed(re.tail) && regex.value == RenderRegex(re)
    requires str.Some? ==> |str.value| <= MAX_COUNT
    ensures matched <==> regex.Some? && str.Some? && MatchesSubstring(re, str.value)
  {
    if regex.None? || str.None? {
      return false;
    }
    var pattern, s := regex.value, str.value;
    NoCaretAtHead(re.tail);
    PrefixesAreSubstrings(re, s);
    if pattern != "" && pattern[0] == '^' {
      assert !re.anchored ==> pattern == Render(re.tail);
      assert pattern[1..] == Render(re.tail);
      assert s[0..] == s;
      matched := MatchRegexAtHead(pattern[1..], s, re.tail);
      return;
    }
    assert !re.anchored && pattern == Render(re.tail);
    var i := 0;
    while true
      invariant 0 <= i <= |s|
      invariant forall k :: 0 <= k < i ==> !MatchesPrefix(re.tail, s[k..])
      decreases |s| - i
    {
      var here := MatchRegexAtHead(pattern, s[i..], re.tail);
      if here {
        return true;
      }
      if i == |s| {
        return false;
      }
      i := i + 1;
    }
  }

  lemma PrefixesAreSubstrings(re: Regex, s: string)
    ensures MatchesSubstring(re, s) <==>
            exists i :: 0 <= i <= |s| && (re.anchored ==> i == 0) && MatchesPrefix(re.tail, s[i..])
  {
    if MatchesSubstring(re, s) {
      var i, j :| 0 <= i <= j <= |s| && InLanguage(re.tail, s[i..j])
                  && (re.anchored ==> i == 0) && (EndsInDollar(re.tail) ==> j == |s|);
      assert s[i..j] == s[i..][..j - i];
      assert MatchesPrefix(re.tail, s[i..]);
    }
    if i :| 0 <= i <= |s| && (re.anchored ==> i == 0) && MatchesPrefix(re.tail, s[i..]) {
      var t := s[i..];
      var n :| 0 <= n <= |t| && InLanguage(re.tail, t[..n]) && (EndsInDollar(re.tail) ==> n == |t|);
      assert t[..n] == s[i..i + n];
    }
  }
}
