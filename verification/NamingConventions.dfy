/** Which names make a test case a death test case, and which disable a test: the two filters
    that Google Test applies to names, and what they accept. */
module NamingConventions {
  import opened Filters

  const DEATH_TEST_CASE_FILTER := "*DeathTest:*DeathTest/*"
  const DISABLE_TEST_FILTER := "DISABLED_*:*/DISABLED_*"

  /** The name ends in "DeathTest", or "DeathTest/" occurs in it. */
  predicate IsDeathTestCase(name: string) {
    EndsIn(name, "DeathTest") || OccursIn("DeathTest/", name)
  }

  /** The name starts with "DISABLED_", or does so after a slash. */
  predicate IsDisabledName(name: string) {
    "DISABLED_" <= name || OccursIn("/DISABLED_", name)
  }

  predicate EndsIn(s: string, suffix: string) {
    |suffix| <= |s| && s[|s| - |suffix|..] == suffix
  }

  predicate OccursIn(infix: string, s: string) {
    exists k :: 0 <= k <= |s| && infix <= s[k..]
  }

  predicate IsPlain(p: string) {
    forall k :: 0 <= k < |p| ==> p[k] != '*' && p[k] != '?' && p[k] != ':'
  }

  lemma {:induction false} PlainFront(p: string, rest: string, s: string)
    requires IsPlain(p)
    ensures PatternMatchesString(p + rest, s) <==> p <= s && PatternMatchesString(rest, s[|p|..])
  {
    if p == "" {
      assert p + rest == rest && s[0..] == s;
    } else {
      assert (p + rest)[1..] == p[1..] + rest;
      if s != "" {
        PlainFront(p[1..], rest, s[1..]);
        assert p <= s ==> s[1..][|p| - 1..] == s[|p|..];
        assert p <= s <==> p[0] == s[0] && p[1..] <= s[1..];
      }
    }
  }

  lemma {:induction false} StarFront(rest: string, s: string)
    ensures PatternMatchesString("*" + rest, s) <==> exists k :: 0 <= k <= |s| && PatternMatchesString(rest, s[k..])
  {
    var pattern := "*" + rest;
    assert pattern[1..] == rest && s[0..] == s;
    if s != "" {
      var t := s[1..];
      StarFront(rest, t);
      assert forall k :: 0 <= k <= |t| ==> t[k..] == s[k + 1..];
      if k :| 0 <= k <= |s| && PatternMatchesString(rest, s[k..]) {
        assert k > 0 ==> t[k - 1..] == s[k..];
      }
    }
  }

  /** "*" and a plain text accept the names that end in the text. */
  lemma SuffixPattern(p: string, rest: string, s: string)
    requires IsPlain(p) && (rest == "" || rest[0] == ':')
    ensures PatternMatchesString("*" + (p + rest), s) <==> EndsIn(s, p)
  {
    StarFront(p + rest, s);
    forall k | 0 <= k <= |s|
      ensures PatternMatchesString(p + rest, s[k..]) <==> s[k..] == p
    {
      PlainFront(p, rest, s[k..]);
    }
  }

  /** A plain text and "*" accept the names that start with the text. */
  lemma PrefixPattern(p: string, rest: string, s: string)
    requires IsPlain(p) && (rest == "" || rest[0] == ':')
    ensures PatternMatchesString(p + ("*" + rest), s) <==> p <= s
  {
    PlainFront(p, "*" + rest, s);
    if p <= s {
      var t := s[|p|..];
      StarFront(rest, t);
      assert t[|t|..] == "";
    }
  }

  /** "*", a plain text and "*" accept the names in which the text occurs. */
  lemma InfixPattern(p: string, s: string)
    requires IsPlain(p)
    ensures PatternMatchesString("*" + (p + "*"), s) <==> OccursIn(p, s)
  {
    StarFront(p + "*", s);
    forall k | 0 <= k <= |s|
      ensures PatternMatchesString(p + "*", s[k..]) <==> p <= s[k..]
    {
      PrefixPattern(p, "", s[k..]);
      assert "*" + "" == "*";
    }
  }

  lemma TwoPatterns(first: string, second: string, name: string)
    requires ':' !in first && ':' !in second
    ensures FilterAccepts(first + (":" + second), name) <==>
            PatternMatchesString(first + (":" + second), name) || PatternMatchesString(second, name)
  {
    var filter := first + (":" + second);
    assert filter[..|first|] == first && filter[|first| + 1..] == second && second[..|second|] == second;
    FirstColon(filter, |first|);
    FirstColon(second, |second|);
  }

  method EndsInOrHas(name: string, filter: string, ghost suffix: string, ghost infix: string) returns (matches: bool)
    requires IsPlain(suffix) && IsPlain(infix)
    requires filter == ("*" + suffix) + (":" + ("*" + (infix + "*")))
    ensures matches <==> EndsIn(name, suffix) || OccursIn(infix, name)
  {
    matches := MatchesFilter(name, filter);
    ghost var second := "*" + (infix + "*");
    TwoPatterns("*" + suffix, second, name);
    assert filter == "*" + (suffix + (":" + second));
    SuffixPattern(suffix, ":" + second, name);
    InfixPattern(infix, name);
  }

  method StartsWithOrHas(name: string, filter: string, ghost prefix: string, ghost infix: string)
    returns (matches: bool)
    requires IsPlain(prefix) && IsPlain(infix)
    requires filter == (prefix + "*") + (":" + ("*" + (infix + "*")))
    ensures matches <==> prefix <= name || OccursIn(infix, name)
  {
    matches := MatchesFilter(name, filter);
    ghost var second := "*" + (infix + "*");
    TwoPatterns(prefix + "*", second, name);
    assert filter == prefix + ("*" + (":" + second));
    PrefixPattern(prefix, ":" + second, name);
    InfixPattern(infix, name);
  }

  method NamesADeathTestCase(name: string) returns (death: bool)
    ensures death == IsDeathTestCase(name)
  {
    death := EndsInOrHas(name, DEATH_TEST_CASE_FILTER, "DeathTest", "DeathTest/");
  }

  method NamesADisabledTest(name: string) returns (disabled: bool)
    ensures disabled == IsDisabledName(name)
  {
    disabled := StartsWithOrHas(name, DISABLE_TEST_FILTER, "DISABLED_", "/DISABLED_");
  }

  lemma EndsInIff(s: string, suffix: string)
    ensures EndsIn(s, suffix) <==> exists front :: s == front + suffix
  {
    if EndsIn(s, suffix) {
      assert s == s[..|s| - |suffix|] + suffix;
    }
  }

  lemma OccursInIff(infix: string, s: string)
    ensures OccursIn(infix, s) <==> exists front, back :: s == front + infix + back
  {
    if k :| 0 <= k <= |s| && infix <= s[k..] {
      assert s == s[..k] + infix + s[k + |infix|..];
    }
    if front, back :| s == front + infix + back {
      assert s[|front|..] == infix + back;
    }
  }

  /** The names of death test cases: they end in "DeathTest", perhaps before a slash and the
      name of an instance. */
  lemma DeathTestCaseNames(name: string)
    ensures IsDeathTestCase(name) <==>
            || (exists front: string :: name == front + "DeathTest")
            || (exists front: string, back: string :: name == front + "DeathTest/" + back)
  {
    EndsInIff(name, "DeathTest");
    OccursInIff("DeathTest/", name);
  }

  /** The names that disable: "DISABLED_" in front, perhaps behind the name of an
      instantiation and a slash. */
  lemma DisabledNames(name: string)
    ensures IsDisabledName(name) <==>
            || (exists back: string :: name == "DISABLED_" + back)
            || (exists front: string, back: string :: name == front + "/DISABLED_" + back)
  {
    if "DISABLED_" <= name {
      assert name == "DISABLED_" + name[9..];
    }
    OccursInIff("/DISABLED_", name);
  }
}
