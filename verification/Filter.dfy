/** Google Test's test filters: glob patterns, ':'-separated lists of them, and the
    positive and negative parts of the filter flag.

    A C string is a `string`, and its terminating NUL is the end of the sequence. */
module Filters {
  import opened Basics

  // ----- one pattern -----

  /** The characters a single pattern character may stand for. */
  predicate Fits(patternChar: char, piece: string) {
    if patternChar == '*' then true
    else if patternChar == '?' then |piece| == 1
    else piece == [patternChar]
  }

  function Concat(pieces: seq<string>): string {
    if pieces == [] then "" else pieces[0] + Concat(pieces[1..])
  }

  ghost predicate FitsAll(pattern: string, pieces: seq<string>) {
    |pieces| == |pattern| && forall k :: 0 <= k < |pattern| ==> Fits(pattern[k], pieces[k])
  }

  /** The whole of `str` can be cut into pieces, one for each pattern character. */
  ghost predicate Globs(pattern: string, str: string) {
    exists pieces: seq<string> :: FitsAll(pattern, pieces) && Concat(pieces) == str
  }

  /** The pattern in front of the first ':' (or the end) of a filter. */
  function FirstSegment(filter: string): (segment: string)
    ensures |segment| <= |filter| && segment == filter[..|segment|] && ':' !in segment
    ensures |segment| < |filter| ==> filter[|segment|] == ':'
  {
    if filter == "" || filter[0] == ':' then "" else [filter[0]] + FirstSegment(filter[1..])
  }

  predicate PatternMatchesString(pattern: string, str: string)
    decreases |pattern| + |str|
  {
    if pattern == "" || pattern[0] == ':' then str == ""
    else if pattern[0] == '?' then str != "" && PatternMatchesString(pattern[1..], str[1..])
    else if pattern[0] == '*' then
      (str != "" && PatternMatchesString(pattern, str[1..])) || PatternMatchesString(pattern[1..], str)
    else str != "" && pattern[0] == str[0] && PatternMatchesString(pattern[1..], str[1..])
  }

  /** Peels off the first pattern character. */
  lemma GlobsHead(pattern: string, str: string)
    requires pattern != ""
    ensures Globs(pattern, str) <==>
            exists k :: 0 <= k <= |str| && Fits(pattern[0], str[..k]) && Globs(pattern[1..], str[k..])
  {
    if Globs(pattern, str) {
      var pieces: seq<string> :| FitsAll(pattern, pieces) && Concat(pieces) == str;
      var k := |pieces[0]|;
      assert str[..k] == pieces[0] && str[k..] == Concat(pieces[1..]);
      assert FitsAll(pattern[1..], pieces[1..]);
    }
    if k :| 0 <= k <= |str| && Fits(pattern[0], str[..k]) && Globs(pattern[1..], str[k..]) {
      var pieces: seq<string> :| FitsAll(pattern[1..], pieces) && Concat(pieces) == str[k..];
      var all := [str[..k]] + pieces;
      assert all[1..] == pieces && Concat(all) == str[..k] + str[k..] == str;
      assert FitsAll(pattern, all);
    }
  }

  lemma GlobsEmpty(str: string)
    ensures Globs("", str) <==> str == ""
  {
    assert FitsAll("", []) && Concat([]) == "";
  }

  /** The recursive matcher decides the declarative relation, for the pattern's first
      segment. */
  lemma {:induction false} PatternMatchesStringIffGlobs(pattern: string, str: string)
    ensures PatternMatchesString(pattern, str) <==> Globs(FirstSegment(pattern), str)
    decreases |pattern| + |str|
  {
    var segment := FirstSegment(pattern);
    if segment == "" {
      GlobsEmpty(str);
    } else {
      var rest := pattern[1..];
      assert segment[1..] == FirstSegment(rest);
      GlobsHead(segment, str);
      if pattern[0] == '*' {
        PatternMatchesStringIffGlobs(rest, str);
        assert str[0..] == str && str[..0] == "";
        if str != "" {
          PatternMatchesStringIffGlobs(pattern, str[1..]);
          GlobsHead(segment, str[1..]);
          assert forall k :: 0 <= k < |str| ==> str[1..][k..] == str[k + 1..];
          StarSkipsOne(segment, str);
        }
      } else {
        assert forall k :: 0 <= k <= |str| && Fits(pattern[0], str[..k]) ==> k == 1;
        if str != "" {
          PatternMatchesStringIffGlobs(rest, str[1..]);
          assert str[..1] == [str[0]];
        }
      }
    }
  }

  /** A leading '*' stands for nothing, or for one character and whatever else it takes. */
  lemma StarSkipsOne(segment: string, str: string)
    requires segment != "" && segment[0] == '*' && str != ""
    ensures Globs(segment, str) <==> Globs(segment[1..], str) || Globs(segment, str[1..])
  {
    GlobsHead(segment, str);
    GlobsHead(segment, str[1..]);
    assert str[0..] == str;
    assert forall k :: 0 <= k < |str| ==> str[1..][k..] == str[k + 1..];
    if k :| 0 <= k <= |str| && Globs(segment[1..], str[k..]) && k > 0 {
      assert Globs(segment[1..], str[1..][k - 1..]);
    }
    if k :| 0 <= k <= |str[1..]| && Globs(segment[1..], str[1..][k..]) {
      assert Globs(segment[1..], str[k + 1..]);
    }
  }

  // ----- a list of patterns -----

  /** The ':'-separated segments of a filter: one more than there are colons. */
  function Segments(filter: string): (segments: seq<string>)
    ensures segments != [] && segments[0] == FirstSegment(filter)
    decreases |filter|
  {
    var first := FirstSegment(filter);
    if |first| == |filter| then [first] else [first] + Segments(filter[|first| + 1..])
  }

  function JoinSegments(segments: seq<string>): string
    requires segments != []
  {
    if |segments| == 1 then segments[0] else segments[0] + [':'] + JoinSegments(segments[1..])
  }

  /** Nothing but the colons is lost, and no segment holds one. */
  lemma {:induction false} SegmentsJoinToTheFilter(filter: string)
    ensures JoinSegments(Segments(filter)) == filter
    ensures forall k :: 0 <= k < |Segments(filter)| ==> ':' !in Segments(filter)[k]
    decreases |filter|
  {
    hide FirstSegment;
    var first, segments := FirstSegment(filter), Segments(filter);
    if |first| < |filter| {
      var rest := filter[|first| + 1..];
      SegmentsJoinToTheFilter(rest);
      assert segments == [first] + Segments(rest);
      assert segments[1..] == Segments(rest);
      assert filter == filter[..|first|] + [':'] + rest;
      assert forall k :: 0 < k < |segments| ==> segments[k] == Segments(rest)[k - 1];
    } else {
      assert segments == [first];
    }
  }

  /** The first pattern of the list matches the name, or the rest of the list accepts it. */
  predicate FilterAccepts(filter: string, name: string)
    decreases |filter|
  {
    var first := FirstSegment(filter);
    PatternMatchesString(filter, name) || (|first| < |filter| && FilterAccepts(filter[|first| + 1..], name))
  }

  /** One of the segments globs the whole name. */
  ghost predicate SomeSegmentGlobs(filter: string, name: string) {
    SomeGlobs(Segments(filter), name)
  }

  ghost predicate SomeGlobs(segments: seq<string>, name: string) {
    exists k :: 0 <= k < |segments| && Globs(segments[k], name)
  }

  lemma SomeGlobsHead(segments: seq<string>, name: string)
    requires segments != []
    ensures SomeGlobs(segments, name) <==> Globs(segments[0], name) || SomeGlobs(segments[1..], name)
  {
    if k :| 0 <= k < |segments| && Globs(segments[k], name) && k > 0 {
      assert Globs(segments[1..][k - 1], name);
    }
    if k :| 0 <= k < |segments[1..]| && Globs(segments[1..][k], name) {
      assert Globs(segments[k + 1], name);
    }
  }

  /** A filter accepts the names that one of its ':'-separated segments globs. */
  lemma {:induction false} FilterAcceptsIffSegmentGlobs(filter: string, name: string)
    ensures FilterAccepts(filter, name) <==> SomeSegmentGlobs(filter, name)
    decreases |filter|
  {
    PatternMatchesStringIffGlobs(filter, name);
    var segments, first := Segments(filter), FirstSegment(filter);
    SomeGlobsHead(segments, name);
    if |first| < |filter| {
      FilterAcceptsIffSegmentGlobs(filter[|first| + 1..], name);
      assert segments[1..] == Segments(filter[|first| + 1..]);
    }
  }

  /** The index of the first `c` at or after `start`; the length when there is none. */
  method Strchr(s: string, start: nat, c: char) returns (i: nat)
    requires start <= |s|
    ensures start <= i <= |s| && c !in s[start..i] && (i < |s| ==> s[i] == c)
  {
    i := start;
    while i < |s| && s[i] != c
      invariant start <= i <= |s| && c !in s[start..i]
    {
      i := i + 1;
    }
  }

  lemma FirstColon(filter: string, i: nat)
    requires i <= |filter| && ':' !in filter[..i] && (i < |filter| ==> filter[i] == ':')
    ensures FirstSegment(filter) == filter[..i]
  {
    var segment := FirstSegment(filter);
    assert forall k :: 0 <= k < |segment| ==> segment[k] == filter[k] != ':';
    assert forall k :: 0 <= k < i ==> filter[..i][k] == filter[k] != ':';
  }

  /** What is left of a list of patterns when its first colon is at `colon`. */
  lemma AcceptsFromNextSegment(filter: string, start: nat, colon: nat, name: string)
    requires start <= colon <= |filter| && ':' !in filter[start..colon] && (colon < |filter| ==> filter[colon] == ':')
    ensures FilterAccepts(filter[start..], name) <==>
            PatternMatchesString(filter[start..], name)
            || (colon < |filter| && FilterAccepts(filter[colon + 1..], name))
  {
    var rest := filter[start..];
    assert rest[..colon - start] == filter[start..colon];
    FirstColon(rest, colon - start);
    if colon < |filter| {
      assert rest[colon - start + 1..] == filter[colon + 1..];
    }
  }

  method MatchesFilter(name: string, filter: string) returns (matches: bool)
    ensures matches <==> FilterAccepts(filter, name)
  {
    var curPattern := 0;
    while true
      invariant 0 <= curPattern <= |filter|
      invariant FilterAccepts(filter, name) <==> FilterAccepts(filter[curPattern..], name)
      decreases |filter| - curPattern
    {
      if PatternMatchesString(filter[curPattern..], name) {
        return true;
      }
      var colon := Strchr(filter, curPattern, ':');
      AcceptsFromNextSegment(filter, curPattern, colon, name);
      if colon == |filter| {
        return false;
      }
      curPattern := colon + 1;
    }
  }

  // ----- the filter flag -----

  const FORMAT_BUFFER_SIZE := 4096

  /** `String::Format("%s.%s", ...)`, which gives up on names that do not fit its buffer. */
  function FullName(testCaseName: string, testName: string): string {
    var name := testCaseName + "." + testName;
    if |name| >= FORMAT_BUFFER_SIZE then "<formatting error or buffer exceeded>" else name
  }

  /** The part of the flag before the first '-', '*' when it is empty but there is a '-'. */
  function PositivePart(flag: string): string {
    if '-' !in flag then flag
    else var dash := FirstDash(flag); if dash == 0 then "*" else flag[..dash]
  }

  /** The part after the first '-', empty when there is none. */
  function NegativePart(flag: string): string {
    if '-' !in flag then "" else flag[FirstDash(flag) + 1..]
  }

  function FirstDash(flag: string): (dash: nat)
    requires '-' in flag
    ensures dash < |flag| && flag[dash] == '-' && '-' !in flag[..dash]
  {
    if flag[0] == '-' then 0 else 1 + FirstDash(flag[1..])
  }

  predicate TestMatches(flag: string, testCaseName: string, testName: string) {
    var name := FullName(testCaseName, testName);
    FilterAccepts(PositivePart(flag), name) && !FilterAccepts(NegativePart(flag), name)
  }

  method FilterMatchesTest(flag: string, testCaseName: string, testName: string) returns (matches: bool)
    ensures matches <==> TestMatches(flag, testCaseName, testName)
  {
    var fullName := FullName(testCaseName, testName);
    var dash := Strchr(flag, 0, '-');
    assert flag[..dash] == flag[0..dash];
    var positive, negative;
    if dash == |flag| {
      positive, negative := flag, "";
    } else {
      positive, negative := flag[..dash], flag[dash + 1..];
      if positive == "" {
        positive := "*";
      }
      assert dash == FirstDash(flag) by {
        var d := FirstDash(flag);
        assert forall k :: 0 <= k < d ==> flag[..d][k] == flag[k] != '-';
        assert forall k :: 0 <= k < dash ==> flag[..dash][k] == flag[k] != '-';
      }
    }
    var inPositive := MatchesFilter(fullName, positive);
    matches := false;
    if inPositive {
      var inNegative := MatchesFilter(fullName, negative);
      matches := !inNegative;
    }
  }

  lemma StarGlobsEverything(name: string)
    ensures Globs("*", name)
  {
    var pieces := [name];
    assert Concat(pieces) == name + Concat([]);
    assert FitsAll("*", pieces);
  }

  /** A flag without '-' never excludes a test by its (absent) negative part; a flag that
      starts with '-' has a positive part accepting every name. */
  lemma AbsentParts(flag: string, testCaseName: string, testName: string)
    ensures '-' !in flag ==>
              (TestMatches(flag, testCaseName, testName) <==>
               FilterAccepts(flag, FullName(testCaseName, testName)))
    ensures flag != "" && flag[0] == '-' ==>
              (TestMatches(flag, testCaseName, testName) <==>
               !FilterAccepts(flag[1..], FullName(testCaseName, testName)))
  {
    var name := FullName(testCaseName, testName);
    assert name != "" by {
      assert |"<formatting error or buffer exceeded>"| == 37;
    }
    assert FilterAccepts("*", name) by {
      StarGlobsEverything(name);
      PatternMatchesStringIffGlobs("*", name);
      assert FirstSegment("*") == "*";
    }
  }

  /** Below the limit of `Format` a test is accepted exactly when a segment of the positive
      part globs the whole of "case.test" and no segment of the negative part does. */
  lemma ShortNamesMatch(flag: string, testCaseName: string, testName: string)
    requires |testCaseName| + |testName| + 1 < FORMAT_BUFFER_SIZE
    ensures var name := testCaseName + "." + testName;
            TestMatches(flag, testCaseName, testName) <==>
            SomeSegmentGlobs(PositivePart(flag), name) && !SomeSegmentGlobs(NegativePart(flag), name)
  {
    var name := testCaseName + "." + testName;
    assert FullName(testCaseName, testName) == name;
    FilterAcceptsIffSegmentGlobs(PositivePart(flag), name);
    FilterAcceptsIffSegmentGlobs(NegativePart(flag), name);
  }

  // ----- what a flag means -----

  /** The flag that is written for a list of patterns, and a list of patterns to exclude. */
  function FlagOf(positive: string, negative: Option<string>): string {
    if negative.None? then positive else positive + "-" + negative.value
  }

  lemma FirstDashAfter(positive: string, negative: string)
    requires '-' !in positive
    ensures var flag := positive + "-" + negative;
            '-' in flag && FirstDash(flag) == |positive|
            && flag[..|positive|] == positive && flag[|positive| + 1..] == negative
  {
    var flag := positive + "-" + negative;
    assert flag[|positive|] == '-';
    var d := FirstDash(flag);
    assert forall k :: 0 <= k < d ==> flag[..d][k] == flag[k] != '-';
    assert forall k :: 0 <= k < |positive| ==> positive[k] == flag[k] != '-';
  }

  lemma PartsOfFlag(positive: string, negative: Option<string>)
    requires '-' !in positive
    ensures var flag := FlagOf(positive, negative);
            && PositivePart(flag) == (if positive == "" && negative.Some? then "*" else positive)
            && NegativePart(flag) == (if negative.None? then "" else negative.value)
  {
    if negative.Some? {
      FirstDashAfter(positive, negative.value);
    }
  }

  lemma NothingAndEverything(name: string)
    requires name != ""
    ensures !FilterAccepts("", name) && FilterAccepts("*", name)
  {
    StarGlobsEverything(name);
    PatternMatchesStringIffGlobs("*", name);
    assert FirstSegment("*") == "*";
  }

  /** A name is accepted when some positive pattern globs the whole of it (any name, if there
      are only negative ones), and no negative pattern does. */
  ghost predicate IsAccepted(positive: string, negative: Option<string>, name: string) {
    && ((positive == "" && negative.Some?) || SomeSegmentGlobs(positive, name))
    && (negative.Some? ==> !SomeSegmentGlobs(negative.value, name))
  }

  /** What a flag accepts: the patterns are matched with "case.test", or with a message if
      that has 4096 characters or more. */
  lemma FlagMeaning(positive: string, negative: Option<string>, testCaseName: string, testName: string)
    requires '-' !in positive
    ensures var name := testCaseName + "." + testName;
            TestMatches(FlagOf(positive, negative), testCaseName, testName) <==>
            if |name| < 4096 then IsAccepted(positive, negative, name)
            else IsAccepted(positive, negative, "<formatting error or buffer exceeded>")
  {
    PartsOfFlag(positive, negative);
    var name := FullName(testCaseName, testName);
    assert name != "" by {
      assert |"<formatting error or buffer exceeded>"| == 37;
    }
    NothingAndEverything(name);
    FilterAcceptsIffSegmentGlobs(positive, name);
    if negative.Some? {
      FilterAcceptsIffSegmentGlobs(negative.value, name);
    }
  }

  /** Every flag is written in one way. */
  lemma EveryFlagHasParts(flag: string) returns (positive: string, negative: Option<string>)
    ensures '-' !in positive && flag == FlagOf(positive, negative)
  {
    if '-' in flag {
      var dash := FirstDash(flag);
      positive, negative := flag[..dash], Some(flag[dash + 1..]);
      assert flag == flag[..dash] + "-" + flag[dash + 1..];
    } else {
      positive, negative := flag, None;
    }
  }
}
