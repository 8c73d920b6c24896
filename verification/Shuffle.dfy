/** Google Test's random number generator and its Fisher-Yates shuffle of a range. */
module Shuffles {
  import opened Basics

  // ----- the generator -----

  const MAX_RANGE: nat := 0x8000_0000
  const TWO_TO_32: nat := 0x1_0000_0000

  class Random {
    var state: nat  // a UInt32

    constructor (seed: nat)
      requires seed < TWO_TO_32
      ensures state == seed && Valid()
    {
      state := seed;
    }

    predicate Valid()
      reads this
    {
      state < TWO_TO_32
    }

    method Reseed(seed: nat)
      requires seed < TWO_TO_32
      modifies this`state
      ensures Valid() && state == seed
    {
      state := seed;
    }

    /** The next state: 32-bit wrap-around arithmetic, then the reduction to 31 bits. */
    static function NextState(state: nat): (next: nat)
      ensures next < MAX_RANGE
      ensures next == (1103515245 * state + 12345) % 0x8000_0000
    {
      var wrapped := (1103515245 * state % TWO_TO_32 + 12345) % TWO_TO_32;
      WrapAroundIsHarmless(1103515245 * state);
      wrapped % MAX_RANGE
    }

    static lemma WrapAroundIsHarmless(x: nat)
      ensures (x % TWO_TO_32 + 12345) % TWO_TO_32 % MAX_RANGE == (x + 12345) % MAX_RANGE
    {
      var q, r := x / TWO_TO_32, x % TWO_TO_32;
      var q', r' := (r + 12345) / TWO_TO_32, (r + 12345) % TWO_TO_32;
      assert x + 12345 == MAX_RANGE * (2 * q + 2 * q') + r';
      MultiplesVanish(2 * q + 2 * q', r');
    }

    static lemma MultiplesVanish(k: nat, r: nat)
      ensures (MAX_RANGE * k + r) % MAX_RANGE == r % MAX_RANGE
    {
      var a, b := r / MAX_RANGE, r % MAX_RANGE;
      assert MAX_RANGE * k + r == MAX_RANGE * (k + a) + b;
    }

    method Generate(range: nat) returns (r: nat)
      requires Valid() && 0 < range <= MAX_RANGE
      modifies this`state
      ensures Valid() && state == NextState(old(state))
      ensures r < range && r == state % range
    {
      state := NextState(state);
      r := state % range;
    }
  }

  /** A `std::vector`, as the functions here get it: by its address. */
  class Vector<E> {
    var elems: seq<E>

    constructor ()
      ensures elems == []
    {
      elems := [];
    }

    method PushBack(x: E)
      modifies this`elems
      ensures elems == old(elems) + [x]
    {
      elems := elems + [x];
    }
  }

  // ----- what a sequence of choices does to a sequence -----

  function Swap<E>(s: seq<E>, i: nat, j: nat): (t: seq<E>)
    requires i < |s| && j < |s|
    ensures |t| == |s|
  {
    s[i := s[j]][j := s[i]]
  }

  /** Choices made while the range width goes down from `width`, each below its width. */
  ghost predicate ChoicesSoFar(width: nat, choices: seq<nat>) {
    |choices| <= NumberOfChoices(width) && forall k :: 0 <= k < |choices| ==> choices[k] < width - k
  }

  function NumberOfChoices(width: nat): nat {
    if width < 2 then 0 else width - 1
  }

  ghost predicate Choices(width: nat, choices: seq<nat>) {
    ChoicesSoFar(width, choices) && |choices| == NumberOfChoices(width)
  }

  /** The choices that the generator makes from a state on. */
  ghost function Drawn(state: nat, width: nat): (choices: seq<nat>)
    ensures Choices(width, choices)
    decreases width
  {
    if width < 2 then []
    else
      var next := Random.NextState(state);
      [next % width] + Drawn(next, width - 1)
  }

  function StateAfter(state: nat, draws: nat): nat {
    if draws == 0 then state else Random.NextState(StateAfter(state, draws - 1))
  }

  lemma {:induction false} StateAfterFirst(state: nat, draws: nat)
    ensures StateAfter(Random.NextState(state), draws) == StateAfter(state, draws + 1)
    decreases draws
  {
    if draws > 0 {
      StateAfterFirst(state, draws - 1);
    }
  }

  /** Each choice is the remainder of one more state of the generator. */
  lemma {:induction false} DrawnAt(state: nat, width: nat, k: nat)
    requires k < NumberOfChoices(width)
    ensures Drawn(state, width)[k] == StateAfter(state, k + 1) % (width - k)
    decreases k
  {
    if k > 0 {
      DrawnAt(Random.NextState(state), width - 1, k - 1);
      StateAfterFirst(state, k);
    }
  }

  /** The arrangement of [begin, begin + width) that the choices lead to. */
  ghost function Shuffled<E>(s: seq<E>, begin: nat, width: nat, choices: seq<nat>): (t: seq<E>)
    requires begin + width <= |s| && ChoicesSoFar(width, choices)
    ensures |t| == |s|
    decreases |choices|
  {
    if choices == [] then s
    else Shuffled(Swap(s, begin + choices[0], begin + width - 1), begin, width - 1, choices[1..])
  }

  lemma {:induction false} OneMoreChoice<E>(s: seq<E>, begin: nat, width: nat, choices: seq<nat>, c: nat)
    requires begin + width <= |s| && ChoicesSoFar(width, choices + [c]) && ChoicesSoFar(width, choices)
    ensures var last := begin + width - 1 - |choices|;
            begin <= last < |s| && c < width - |choices| &&
            Shuffled(s, begin, width, choices + [c]) == Swap(Shuffled(s, begin, width, choices), begin + c, last)
    decreases |choices|
  {
    assert (choices + [c])[|choices|] == c;
    if choices != [] {
      assert (choices + [c])[1..] == choices[1..] + [c];
      assert (choices + [c])[0] == choices[0];
      OneMoreChoice(Swap(s, begin + choices[0], begin + width - 1), begin, width - 1, choices[1..], c);
    }
  }

  /** Draws choice number `j` of those that follow from the seed. */
  method DrawChoice(random: Random, rangeWidth: nat, ghost seed: nat, ghost drawn: seq<nat>, ghost j: nat)
    returns (r: nat)
    requires random.Valid() && 2 <= rangeWidth <= MAX_RANGE && random.state == StateAfter(seed, j)
    requires j <= |drawn| && Drawn(random.state, rangeWidth) == drawn[j..]
    modifies random`state
    ensures random.Valid() && random.state == StateAfter(seed, j + 1)
    ensures r < rangeWidth && j < |drawn| && r == drawn[j] && Drawn(random.state, rangeWidth - 1) == drawn[j + 1..]
  {
    r := random.Generate(rangeWidth);
    assert drawn[j..][1..] == drawn[j + 1..];
  }

  method ShuffleRange<E>(random: Random, begin: nat, end: nat, v: Vector<E>) returns (ghost choices: seq<nat>)
    requires random.Valid()
    requires begin <= end <= |v.elems| <= MAX_RANGE
    modifies random`state, v`elems
    ensures random.Valid() && random.state == StateAfter(old(random.state), NumberOfChoices(end - begin))
    ensures choices == Drawn(old(random.state), end - begin)
    ensures v.elems == Shuffled(old(v.elems), begin, end - begin, choices)
  {
    hide Drawn;
    choices := [];
    ghost var before, width, seed := v.elems, end - begin, random.state;
    ghost var drawn := Drawn(seed, width);
    var rangeWidth := end - begin;
    while rangeWidth >= 2
      invariant 0 <= rangeWidth <= width
      invariant random.Valid() && random.state == StateAfter(seed, |choices|)
      invariant |choices| <= |drawn| && choices == drawn[..|choices|]
      invariant Drawn(random.state, rangeWidth) == drawn[|choices|..]
      invariant ChoicesSoFar(width, choices)
      invariant |choices| == if width < 2 then 0 else width - rangeWidth
      invariant v.elems == Shuffled(before, begin, width, choices)
    {
      var lastInRange := begin + rangeWidth - 1;
      var r := DrawChoice(random, rangeWidth, seed, drawn, |choices|);
      var selected := begin + r;
      v.elems := v.elems[selected := v.elems[lastInRange]][lastInRange := v.elems[selected]];
      OneMoreChoice(before, begin, width, choices, r);
      choices := choices + [r];
      rangeWidth := rangeWidth - 1;
    }
  }

  /** Shuffles the whole of a vector. */
  method Shuffle<E>(random: Random, v: Vector<E>) returns (ghost choices: seq<nat>)
    requires random.Valid() && |v.elems| <= MAX_RANGE
    modifies random`state, v`elems
    ensures random.Valid() && random.state == StateAfter(old(random.state), NumberOfChoices(|old(v.elems)|))
    ensures choices == Drawn(old(random.state), |old(v.elems)|)
    ensures v.elems == Shuffled(old(v.elems), 0, |old(v.elems)|, choices)
  {
    choices := ShuffleRange(random, 0, |v.elems|, v);
  }

  // ----- the choices and the arrangements correspond one to one -----

  /** `t` is `s` with the elements of [begin, begin + width) rearranged. */
  ghost predicate Rearranged<E>(s: seq<E>, t: seq<E>, begin: nat, width: nat)
    requires begin + width <= |s|
  {
    && |t| == |s|
    && (forall k :: 0 <= k < begin || begin + width <= k < |s| ==> t[k] == s[k])
    && multiset(t[begin..begin + width]) == multiset(s[begin..begin + width])
  }

  lemma SwapKeepsTheElements<E>(s: seq<E>, i: nat, j: nat)
    requires i < |s| && j < |s|
    ensures multiset(Swap(s, i, j)) == multiset(s)
  {
  }

  lemma SwapInRange<E>(s: seq<E>, begin: nat, width: nat, c: nat)
    requires begin + width <= |s| && c < width
    ensures var t := Swap(s, begin + c, begin + width - 1);
            && t[begin..begin + width] == Swap(s[begin..begin + width], c, width - 1)
            && forall k :: 0 <= k < begin || begin + width <= k < |s| ==> t[k] == s[k]
  {
  }

  lemma SwapRearranges<E>(s: seq<E>, begin: nat, width: nat, c: nat)
    requires begin + width <= |s| && c < width
    ensures Rearranged(s, Swap(s, begin + c, begin + width - 1), begin, width)
  {
    hide Swap;
    SwapInRange(s, begin, width, c);
    SwapKeepsTheElements(s[begin..begin + width], c, width - 1);
  }

  lemma SameLastElement<E>(a: seq<E>, b: seq<E>, x: E)
    ensures multiset(a + [x]) == multiset(b + [x]) <==> multiset(a) == multiset(b)
  {
    assert multiset(a + [x]) - multiset{x} == multiset(a);
    assert multiset(b + [x]) - multiset{x} == multiset(b);
  }

  lemma RangeWithLast<E>(s: seq<E>, begin: nat, last: nat)
    requires begin <= last < |s|
    ensures s[begin..last + 1] == s[begin..last] + [s[last]]
  {
  }

  /** A last element that both have in place can be left out of the range. */
  lemma NarrowerRange<E>(s: seq<E>, t: seq<E>, begin: nat, width: nat)
    requires 0 < width && begin + width <= |s| == |t|
    requires s[begin + width - 1] == t[begin + width - 1]
    ensures Rearranged(s, t, begin, width) <==> Rearranged(s, t, begin, width - 1)
  {
    var last := begin + width - 1;
    RangeWithLast(s, begin, last);
    RangeWithLast(t, begin, last);
    SameLastElement(t[begin..last], s[begin..last], s[last]);
  }

  lemma WiderRange<E>(s: seq<E>, t: seq<E>, begin: nat, width: nat)
    requires 0 < width && begin + width <= |s| && Rearranged(s, t, begin, width - 1)
    ensures Rearranged(s, t, begin, width)
  {
    NarrowerRange(s, t, begin, width);
  }

  lemma SingletonRange<E>(s: seq<E>, t: seq<E>, begin: nat, width: nat)
    requires width < 2 && begin + width <= |s| && Rearranged(s, t, begin, width)
    ensures t == s
  {
    if width == 1 {
      assert t[begin..begin + 1] == [] + [t[begin]] && s[begin..begin + 1] == [] + [s[begin]];
      assert t[begin] in multiset(s[begin..begin + 1]);
    }
  }

  lemma WhereTheLastElementCameFrom<E>(s: seq<E>, t: seq<E>, begin: nat, width: nat) returns (c: nat)
    requires 0 < width && begin + width <= |s| && Rearranged(s, t, begin, width)
    ensures c < width && s[begin + c] == t[begin + width - 1]
  {
    var range := s[begin..begin + width];
    assert t[begin + width - 1] == t[begin..begin + width][width - 1];
    assert t[begin + width - 1] in multiset(range);
    c :| 0 <= c < width && range[c] == t[begin + width - 1];
  }

  /** Choices only ever rearrange the range. */
  lemma {:induction false} ShuffledRearranges<E>(s: seq<E>, begin: nat, width: nat, choices: seq<nat>)
    requires begin + width <= |s| && Choices(width, choices)
    ensures Rearranged(s, Shuffled(s, begin, width, choices), begin, width)
    decreases width
  {
    if width >= 2 {
      hide Rearranged, Swap;
      var s' := Swap(s, begin + choices[0], begin + width - 1);
      SwapRearranges(s, begin, width, choices[0]);
      ShuffledRearranges(s', begin, width - 1, choices[1..]);
      var t := Shuffled(s', begin, width - 1, choices[1..]);
      assert t == Shuffled(s, begin, width, choices);
      WiderRange(s', t, begin, width);
      RearrangedTwice(s, s', t, begin, width);
    }
  }

  lemma RearrangedTwice<E>(s: seq<E>, u: seq<E>, t: seq<E>, begin: nat, width: nat)
    requires begin + width <= |s| && Rearranged(s, u, begin, width) && Rearranged(u, t, begin, width)
    ensures Rearranged(s, t, begin, width)
  {
  }

  /** The last element of the range settles in the first step. */
  lemma LastElementIsTheFirstChoice<E>(s: seq<E>, begin: nat, width: nat, choices: seq<nat>)
    requires begin + width <= |s| && width >= 2 && Choices(width, choices)
    ensures Shuffled(s, begin, width, choices)[begin + width - 1] == s[begin + choices[0]]
  {
    ShuffledRearranges(Swap(s, begin + choices[0], begin + width - 1), begin, width - 1, choices[1..]);
  }

  /** Different choices lead to different arrangements of distinct elements. */
  lemma {:induction false} ShuffledIsInjective<E>(s: seq<E>, begin: nat, width: nat, c1: seq<nat>, c2: seq<nat>)
    requires begin + width <= |s| && Choices(width, c1) && Choices(width, c2)
    requires Distinct(s)
    requires Shuffled(s, begin, width, c1) == Shuffled(s, begin, width, c2)
    ensures c1 == c2
    decreases width
  {
    if width >= 2 {
      LastElementIsTheFirstChoice(s, begin, width, c1);
      LastElementIsTheFirstChoice(s, begin, width, c2);
      assert c1[0] == c2[0];
      var s' := Swap(s, begin + c1[0], begin + width - 1);
      ShuffledIsInjective(s', begin, width - 1, c1[1..], c2[1..]);
      assert c1 == [c1[0]] + c1[1..] && c2 == [c2[0]] + c2[1..];
    }
  }

  /** Every rearrangement of the range is reached by some choices. */
  lemma {:induction false} ShuffledIsSurjective<E>(s: seq<E>, t: seq<E>, begin: nat, width: nat)
    returns (choices: seq<nat>)
    requires begin + width <= |s| && Rearranged(s, t, begin, width)
    ensures Choices(width, choices) && Shuffled(s, begin, width, choices) == t
    decreases width
  {
    if width < 2 {
      choices := [];
      SingletonRange(s, t, begin, width);
    } else {
      var c := WhereTheLastElementCameFrom(s, t, begin, width);
      var s' := Swap(s, begin + c, begin + width - 1);
      SwapRearranges(s, begin, width, c);
      NarrowerRange(s', t, begin, width);
      var rest := ShuffledIsSurjective(s', t, begin, width - 1);
      choices := [c] + rest;
      assert choices[1..] == rest;
    }
  }

  /** On distinct elements every rearrangement of the range is reached in exactly one way. */
  lemma EveryArrangementInExactlyOneWay<E>(s: seq<E>, t: seq<E>, begin: nat, width: nat)
    requires begin + width <= |s| && Distinct(s)
    ensures Rearranged(s, t, begin, width) <==>
            exists choices :: Choices(width, choices) && Shuffled(s, begin, width, choices) == t
    ensures forall c1, c2 ::
              Choices(width, c1) && Choices(width, c2)
              && Shuffled(s, begin, width, c1) == t && Shuffled(s, begin, width, c2) == t
              ==> c1 == c2
  {
    if Rearranged(s, t, begin, width) {
      var choices := ShuffledIsSurjective(s, t, begin, width);
    }
    if choices :| Choices(width, choices) && Shuffled(s, begin, width, choices) == t {
      ShuffledRearranges(s, begin, width, choices);
    }
    forall c1, c2 | Choices(width, c1) && Choices(width, c2)
                    && Shuffled(s, begin, width, c1) == t && Shuffled(s, begin, width, c2) == t
      ensures c1 == c2
    {
      ShuffledIsInjective(s, begin, width, c1, c2);
    }
  }
}
