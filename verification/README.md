# Verification of c11http: the bundled Google Test and the two schedulers

This project models, in Dafny, the parts of the c11http repository with real logic, and
proves properties of them for all inputs, all runs and all reachable states. Most of that
logic is in the bundled copy of Google Test 1.6.0; two small schedulers, the rotation of the
Windows server's connections and the worker pool, are the repository's own.

`dafny verify dfyconfig.toml` checks everything.

## What is modelled

- **The simple regular expressions** (`RegexSyntax`, `RegexMatch`, `RegexClass`). A pattern is
  valid exactly when it is the rendering of an abstract syntax tree, and that tree is unique.
  The language of a tree is defined by concatenation and repetition counts alone. The two
  mutually recursive matchers terminate and decide prefix matching against that language, and
  `RE::FullMatch` and `RE::PartialMatch` are related to it.
- **`linked_ptr`** (`LinkedPtr`). Real objects with real `next` fields, in disjoint circles. A
  ghost value, the `World`, is handed through the operations: which smart pointers are live, in
  which circles, what was ever captured and what has been deleted.
- **Shuffling, ordering, selecting and running tests** (`Shuffle`, `Permutations`, `Picks`,
  `Schedules`, `UnitTestImpl`, `Filter`, `NamingConventions`, `FilterTests`, `Sharding`, `Residues`,
  `TestRuns`). The registry is a class whose index vectors are separate objects that are permuted
  in place. `TestRuns` puts filtering, sharding, shuffling and running together: each iteration
  runs exactly what was selected, in the order that the flags and the seed determine.
- **Encoders with the decoders that undo them** (`Utf8`, `StringLiteral`, `Xml`, `Digits`). The
  decoders are written from RFC 3629, RFC 2781, ISO/IEC 14882:2011 and XML 1.0, not from the
  encoders.
- **Prime tables** (`Primes`, `PrimeTables`). Trial division, the sieve in an array, and the
  hybrid, against the definition of a prime number.
- **The Windows connection table, the wait rotation and the event dispatch** (`Connections`,
  `WaitRotation`, `Starvation`), **the sample queue** (`LinkedQueue`) and **the worker pool**
  (`WorkerPool`).

Conventions: a C string is a sequence of characters whose end is the terminating NUL; `NULL`
is `None` or a null reference; a thrown exception is `None`. An `int` that only counts is a
mathematical integer. A `std::vector` that is passed around by address is a `Vector` object. An
output stream is the text written so far. The current time and the flags
are parameters.

## Where the code does not do what was hoped or documented

- `RE::Init` tests the last character of the pattern to see whether it ends in `$`. A pattern
  that ends in an escaped, unrepeated `\$` gets no anchor, and `FullMatch` then accepts every
  subject with a matching prefix. `RegexClass.FullMatchIsWholeMatchIff` shows that these are
  exactly the patterns for which `FullMatch` is not a whole match, and
  `RegexClass.EscapedDollarCounterexample` gives one.
- `server/windows/Connections.cpp` rotates the connections "to prevent starvation". That works as
  long as every wait ends at once with the event of a connection: one that stays signalled is then
  served in the end, but not always within as many waits as there are connections. When the
  connection ahead of it is served and removed, it comes to the front, and the next rotation sends
  it to the back. `WaitRotation.WorstCase` is the exact bound, `WaitRotation.SizeIsEnoughIff` says in
  which positions the number of connections is a bound,
  `WaitRotation.WaitWhenNeverBroughtToFront` proves that bound for all other runs, and
  `WaitRotation.FourRoundsAreNotEnough` is a concrete run.
- A completion of I/O ends a wait too: it costs a rotation that serves nobody, and may let a client
  join. (A pass for the server's own event costs such a rotation as well.) Then there is no bound:
  `Starvation.BoundExistsIff` shows that only a connection that is and stays alone is sure to be
  served, and `Starvation.Starved` builds, for every n, a run of n passes in which a connection stays
  signalled and is never served, although nobody leaves (and nobody joins, unless it is alone).
  `Starvation.ServeOthers` is that run on the table itself. From the last completion on there is a
  bound again (`Starvation.ReturnedOnceQuiet`).
- `PrintCharsAsStringTo` writes a NUL as `\0`, which takes in octal digits after it, and prints
  question marks as they are, so that three bytes can spell a trigraph.
  `StringLiterals.ReadUndoesPrintIff` shows that these are the only two ways to lose bytes.
- The comment above `CodePointToUtf8` promises "(Invalid Unicode ...)" for every value above
  U+10FFFF; the code encodes the values up to 2^21 - 1 and writes the message only beyond, and so
  does the model.
- `HybridPrimeTable::GetNextPrime(-1)` finds 2 when its table holds it, where the search on the fly
  gives up; from every argument that is not negative they agree.
- `Connections::addServerConnection` does not look whether the identifier or the event is in use;
  `ConnectionTable.Connections.AddServerConnection` shows that the two indexes agree afterwards
  exactly when neither is.
- A CDATA section read by a parser that normalizes line ends keeps a text exactly when it has no
  carriage return (`Xml.CDataSectionIsReadBack`).

## Model

| member | source | states |
|---|---|---|
| `RegexSyntax.ValidateRegex` | thirdparty/gtest-1.6.0/src/gtest-port.cc:232-286 | accepts exactly the renderings of well-formed syntax trees, NULL excluded |
| `RegexSyntax.RenderedPatternScans` | thirdparty/gtest-1.6.0/src/gtest-port.cc:241-282 | every rendered tree passes the validator's scan, whatever the flag for a preceding repeatable atom allows |
| `RegexSyntax.ScanIsValidity` | thirdparty/gtest-1.6.0/src/gtest-port.cc:232-286 | the scan with its one-flag memory accepts a string if and only if some well-formed tree renders to it |
| `RegexSyntax.ParseRender` | thirdparty/gtest-1.6.0/src/gtest-port.cc:322-350 | parsing a rendered tree gives the tree back |
| `RegexSyntax.RenderIsInjective` | thirdparty/gtest-1.6.0/src/gtest-port.cc:322-350 | a pattern has only one reading |
| `RegexSyntax.PunctuationIsTheRestOfGraphicAscii` | thirdparty/gtest-1.6.0/src/gtest-port.cc:186-188 | the list of punctuation characters is exactly the graphic ASCII characters that are no letters or digits |
| `RegexSyntax.ValidEscapeIff` | thirdparty/gtest-1.6.0/src/gtest-port.cc:197-199 | a backslash is valid exactly before graphic ASCII characters that are no letters or digits and before eleven letters |
| `RegexSyntax.EscapedCharacterIsValidIff` | thirdparty/gtest-1.6.0/src/gtest-port.cc:247-258 | so are the patterns of one escaped character |
| `RegexSyntax.SingleCharacterIsValidIff` | thirdparty/gtest-1.6.0/src/gtest-port.cc:259-282 | which patterns of a single character are valid |
| `RegexMatch.AtomMeaning` | thirdparty/gtest-1.6.0/src/gtest-port.cc:203-222 | the matcher of one valid atom decides its character class, given by character codes |
| `RegexMatch.OnceTakesOne` | thirdparty/gtest-1.6.0/src/gtest-port.cc:341-348 | in the language, an atom that is not repeated takes one character of its class |
| `RegexMatch.OptionalIsNothingOrOnce` | thirdparty/gtest-1.6.0/src/gtest-port.cc:298-300 | `a?` is nothing or `a` |
| `RegexMatch.StarIsNothingOrPlus` | thirdparty/gtest-1.6.0/src/gtest-port.cc:298-300 | `a*` is nothing or `a+` |
| `RegexMatch.PlusIsOnceAndStar` | thirdparty/gtest-1.6.0/src/gtest-port.cc:298-300 | `a+` is `a` followed by `a*` |
| `RegexMatch.MatchesPrefixOfItem` | thirdparty/gtest-1.6.0/src/gtest-port.cc:295-319 | a subject has a matching prefix if and only if some repeat count of the first atom leaves a tail with one |
| `RegexMatch.MatchRegexAtHead` | thirdparty/gtest-1.6.0/src/gtest-port.cc:322-350 | terminates, and is true exactly when some prefix of the subject (all of it under `$`) is in the language |
| `RegexMatch.MatchRepetitionAndRegexAtHead` | thirdparty/gtest-1.6.0/src/gtest-port.cc:295-319 | the first-success loop is true exactly when some allowed repeat count works |
| `RegexMatch.MatchRegexAnywhere` | thirdparty/gtest-1.6.0/src/gtest-port.cc:358-371 | true exactly when a substring matches, anchored as `^` and `$` demand |
| `RegexMatch.PrefixesAreSubstrings` | thirdparty/gtest-1.6.0/src/gtest-port.cc:358-371 | matching at some suffix is the same as matching a substring |
| `RegexClass.FullPatternIsValid` | thirdparty/gtest-1.6.0/src/gtest-port.cc:392-423 | the full pattern built for a valid pattern is valid, and has the expected syntax tree |
| `RegexClass.LanguageWithDollar` | thirdparty/gtest-1.6.0/src/gtest-port.cc:415-422 | appending `$` does not change the language |
| `RegexClass.FullMatchMeaning` | thirdparty/gtest-1.6.0/src/gtest-port.cc:381-423 | a substring match of the full pattern is a match of the whole subject, unless the pattern ends in an escaped `$`: then of a prefix |
| `RegexClass.FullMatchIsWholeMatchIff` | thirdparty/gtest-1.6.0/src/gtest-port.cc:413-422 | full matching is whole matching on all subjects if and only if the pattern does not end in an escaped, unrepeated `$` |
| `RegexClass.EscapedDollarEndsEveryWord` | thirdparty/gtest-1.6.0/src/gtest-port.cc:419-420 | every word of such a pattern ends in `$` |
| `RegexClass.EscapedDollarCounterexample` | thirdparty/gtest-1.6.0/src/gtest-port.cc:419-420 | `a\$` accepts `a$b`, which is not in its language |
| `RegexClass.RE.Init` | thirdparty/gtest-1.6.0/src/gtest-port.cc:392-423 | the object is valid exactly for valid patterns, and its full pattern is valid too |
| `RegexClass.RE.FullMatch` | thirdparty/gtest-1.6.0/src/gtest-port.cc:381-383 | exactly the subjects wholly in the language (those with a prefix in it, after an escaped `$`) |
| `RegexClass.RE.PartialMatch` | thirdparty/gtest-1.6.0/src/gtest-port.cc:387-389 | exactly the subjects with a matching substring, for every valid pattern |
| `LinkedPtrs.EmptyWorld` | thirdparty/gtest-1.6.0/include/gtest/internal/gtest-linked_ptr.h:135-143 | the invariant holds before the first smart pointer is made |
| `LinkedPtrs.SameRingIffSameObject` | thirdparty/gtest-1.6.0/include/gtest/internal/gtest-linked_ptr.h:85-133 | two live pointers are in one circle if and only if they are the same pointer or hold the same object; null pointers are alone |
| `LinkedPtrs.HeldByALivePointer` | thirdparty/gtest-1.6.0/include/gtest/internal/gtest-linked_ptr.h:187-209 | an object counts as held exactly when some live pointer holds it |
| `LinkedPtrs.NothingLeaks` | thirdparty/gtest-1.6.0/include/gtest/internal/gtest-linked_ptr.h:194-196 | when no pointer is left, every captured object has been deleted |
| `LinkedPtrs.LinkedPtr.WalkToPredecessor` | thirdparty/gtest-1.6.0/include/gtest/internal/gtest-linked_ptr.h:112-126 | the walk round a circle terminates at the predecessor |
| `LinkedPtrs.LinkedPtr.Join` | thirdparty/gtest-1.6.0/include/gtest/internal/gtest-linked_ptr.h:109-116 | the new member comes last in the circle, which stays a circle |
| `LinkedPtrs.LinkedPtr.Depart` | thirdparty/gtest-1.6.0/include/gtest/internal/gtest-linked_ptr.h:121-129 | true exactly for the last member; otherwise the others remain a circle |
| `LinkedPtrs.LinkedPtr.DepartAndDelete` | thirdparty/gtest-1.6.0/include/gtest/internal/gtest-linked_ptr.h:194-196 | deletes the object exactly when no live pointer holds it any more, and nothing twice |
| `LinkedPtrs.LinkedPtr.Make` | thirdparty/gtest-1.6.0/include/gtest/internal/gtest-linked_ptr.h:142 | captures an unowned object; all circles stay disjoint and uniform |
| `LinkedPtrs.LinkedPtr.MakeCopy` | thirdparty/gtest-1.6.0/include/gtest/internal/gtest-linked_ptr.h:147-150 | joins the circle of the original; nothing is deleted |
| `LinkedPtrs.LinkedPtr.Assign` | thirdparty/gtest-1.6.0/include/gtest/internal/gtest-linked_ptr.h:159-165 | the old object is deleted exactly when nobody holds it afterwards; self-assignment leaves every pointer and link as it was |
| `LinkedPtrs.LinkedPtr.Reset` | thirdparty/gtest-1.6.0/include/gtest/internal/gtest-linked_ptr.h:168-171 | as assignment, with a newly captured object |
| `LinkedPtrs.LinkedPtr.Destroy` | thirdparty/gtest-1.6.0/include/gtest/internal/gtest-linked_ptr.h:143 | the pointer is no longer live, and its object is deleted exactly when nobody else holds it |
| `Shuffles.Random.Generate` | thirdparty/gtest-1.6.0/src/gtest.cc:284-298 | the next state of the generator, and a number below the range |
| `Shuffles.Random.NextState` | thirdparty/gtest-1.6.0/src/gtest.cc:286 | 32-bit wrap-around does not show after the reduction to 31 bits |
| `Shuffles.ShuffleRange` | thirdparty/gtest-1.6.0/src/gtest-internal-inl.h:301-319 | leads to the arrangement of the choices that the generator makes, each below its range width |
| `Shuffles.ShuffledRearranges` | thirdparty/gtest-1.6.0/src/gtest-internal-inl.h:301-319 | any choices permute only the range and leave the rest unchanged |
| `Shuffles.ShuffledIsInjective` | thirdparty/gtest-1.6.0/src/gtest-internal-inl.h:301-319 | different choices lead to different arrangements of distinct elements |
| `Shuffles.ShuffledIsSurjective` | thirdparty/gtest-1.6.0/src/gtest-internal-inl.h:301-319 | every arrangement is reached by some choices |
| `Shuffles.EveryArrangementInExactlyOneWay` | thirdparty/gtest-1.6.0/src/gtest-internal-inl.h:301-319 | both together: choices and arrangements correspond one to one |
| `Shuffles.Shuffle` | thirdparty/gtest-1.6.0/src/gtest-internal-inl.h:321-325 | the same for the whole vector |
| `Shuffles.DrawnAt` | thirdparty/gtest-1.6.0/src/gtest-internal-inl.h:310-317 | each choice is the remainder of one more state of the generator by the width of the range that is left |
| `Permutations.PermutationVisitsEverything` | thirdparty/gtest-1.6.0/src/gtest-internal-inl.h:572-575 | going through the items by a permutation of their indices visits each exactly once |
| `Permutations.PermutationIsInjective` | thirdparty/gtest-1.6.0/src/gtest-internal-inl.h:572-575 | no index occurs twice in a permutation of a range |
| `NamingConventions.NamesADeathTestCase` | thirdparty/gtest-1.6.0/src/gtest.cc:4113-4114 | the death test filter accepts exactly the names that end in `DeathTest` or contain `DeathTest/` |
| `NamingConventions.NamesADisabledTest` | thirdparty/gtest-1.6.0/src/gtest.cc:4399-4403 | the disabling filter accepts exactly the names that start with `DISABLED_` or contain `/DISABLED_` |
| `NamingConventions.DeathTestCaseNames` | thirdparty/gtest-1.6.0/src/gtest.cc:152-155 | the names of death test cases are those of the form `xDeathTest` or `xDeathTest/y` |
| `NamingConventions.DisabledNames` | thirdparty/gtest-1.6.0/src/gtest.cc:148-150 | the names that disable are those of the form `DISABLED_y` or `x/DISABLED_y` |
| `NamingConventions.StarFront` | thirdparty/gtest-1.6.0/src/gtest.cc:441-443 | a leading `*` matches when the rest of the pattern matches some suffix |
| `NamingConventions.PlainFront` | thirdparty/gtest-1.6.0/src/gtest.cc:444-446 | plain characters in front match themselves |
| `UnitTests.TestCase.AddTestInfo` | thirdparty/gtest-1.6.0/src/gtest.cc:2424-2427 | appends a test and its index |
| `UnitTests.TestCase.ShuffleTests` | thirdparty/gtest-1.6.0/src/gtest.cc:2463-2465 | arranges the indices of the tests, not the tests, by the choices that the generator draws |
| `UnitTests.TestCase.UnshuffleTests` | thirdparty/gtest-1.6.0/src/gtest.cc:2468-2472 | restores the order of registration |
| `UnitTests.TestCase.Run` | thirdparty/gtest-1.6.0/src/gtest.cc:2430-2447 | if the case should run, exactly its tests that should run do, each once and in the order of the index vector; in the order of registration when not shuffled |
| `UnitTests.UnitTestImpl.constructor` | thirdparty/gtest-1.6.0/src/gtest.cc:3939-3978 | the empty registry, without a death test case, keeps the order invariant |
| `UnitTests.UnitTestImpl.GetTestCase` | thirdparty/gtest-1.6.0/src/gtest.cc:4096-4129 | finds the case of that name or inserts one, death test cases behind the last of them, others at the end |
| `UnitTests.UnitTestImpl.InsertTestCase` | thirdparty/gtest-1.6.0/src/gtest.cc:4113-4127 | insertion keeps the death test cases in front and the index vector the identity |
| `UnitTests.UnitTestImpl.AddTestInfo` | thirdparty/gtest-1.6.0/src/gtest-internal-inl.h:633-653 | the test becomes the last one of its case, which is the old one or a new one in its place; every earlier case and test stays, and so does the whole invariant |
| `UnitTests.UnitTestImpl.GetMutableTestCase` | thirdparty/gtest-1.6.0/src/gtest-internal-inl.h:572-575 | the case at a place of the index vector, NULL outside it |
| `UnitTests.UnitTestImpl.ShuffleTests` | thirdparty/gtest-1.6.0/src/gtest.cc:4484-4496 | shuffles the death test cases, the other cases, and the tests in every case, with one draw of the generator after the other; every index vector stays a permutation, the death test cases in front |
| `UnitTests.UnitTestImpl.UnshuffleTests` | thirdparty/gtest-1.6.0/src/gtest.cc:4499-4506 | restores the identity for the cases and for the tests in every case |
| `UnitTests.UnitTestImpl.RunTestCases` | thirdparty/gtest-1.6.0/src/gtest.cc:4235-4238 | visits the cases in the order of the schedule, each once and all death test cases first, and runs exactly the tests due in each, in the order of the schedule |
| `UnitTests.UnitTestImpl.RunIteration` | thirdparty/gtest-1.6.0/src/gtest.cc:4213-4264 | one iteration: the same for the schedule as it was or, exactly if shuffling is requested, shuffled from the seed; nothing when there is nothing to run; back in the order of registration |
| `Schedules.OrderedVisitsDeathTestsFirst` | thirdparty/gtest-1.6.0/src/gtest.cc:4484-4491 | an index vector permuted in two parts visits exactly the death test cases first |
| `UnitTests.InsertedKeepsDeathTestsFirst` | thirdparty/gtest-1.6.0/src/gtest.cc:4113-4125 | insertion behind the last death test case, or at the end, keeps them in front |
| `UnitTests.VisitsDeathTestsFirst` | thirdparty/gtest-1.6.0/src/gtest.cc:4235-4238 | such an index vector visits every test case once, the death test cases first |
| `Schedules.EveryScheduleRunsTheMarked` | thirdparty/gtest-1.6.0/src/gtest.cc:4235-4238 | under every schedule exactly the marked tests run, each once |
| `Schedules.RegisteredRunsInOrder` | thirdparty/gtest-1.6.0/src/gtest.cc:4499-4506 | in the order of registration the marked tests run one after the other |
| `Schedules.ShuffledScheduleFits` | thirdparty/gtest-1.6.0/src/gtest.cc:4484-4496 | shuffling leads to a schedule, with the death test cases in front |
| `Schedules.ShuffledEachAt` | thirdparty/gtest-1.6.0/src/gtest.cc:4492-4495 | the tests of each case are shuffled with the draws that follow those for the cases before it |
| `Schedules.SeedIsItsFlag` | thirdparty/gtest-1.6.0/src/gtest-internal-inl.h:124-135 | a valid seed given as the flag, or as the time when the flag is 0, is the seed of the first iteration |
| `Schedules.SeedsGoRound` | thirdparty/gtest-1.6.0/src/gtest-internal-inl.h:140-146 | the seed of each iteration: they count up to 99999 and start again |
| `Schedules.IterationIsReproducible` | thirdparty/gtest-1.6.0/src/gtest.cc:4257-4269 | any iteration that starts in the order of registration is had again as the first one by giving its seed as the flag |
| `Schedules.IterationsInOrder` | thirdparty/gtest-1.6.0/src/gtest.cc:4213-4219 | without shuffling every iteration that starts in the order of registration runs the marked tests in that order |
| `Filters.PatternMatchesStringIffGlobs` | thirdparty/gtest-1.6.0/src/gtest.cc:433-448 | the recursive matcher terminates and decides the declarative glob relation |
| `Filters.SegmentsJoinToTheFilter` | thirdparty/gtest-1.6.0/src/gtest.cc:450-471 | the segments of a filter are what the colons separate |
| `Filters.FilterAcceptsIffSegmentGlobs` | thirdparty/gtest-1.6.0/src/gtest.cc:450-471 | a filter accepts a name if and only if one of its segments globs the whole name |
| `Filters.MatchesFilter` | thirdparty/gtest-1.6.0/src/gtest.cc:450-471 | the loop over the colons decides acceptance |
| `Filters.FilterMatchesTest` | thirdparty/gtest-1.6.0/src/gtest.cc:474-502 | accepts exactly the names that the positive part accepts and the negative part does not |
| `Filters.AbsentParts` | thirdparty/gtest-1.6.0/src/gtest.cc:481-496 | an absent negative part excludes no name; a flag that starts with `-` has the positive part `*` |
| `Filters.ShortNamesMatch` | thirdparty/gtest-1.6.0/src/gtest.cc:474-502 | below the limit of `Format` a test is accepted exactly when a segment of the positive part globs the whole of "case.test" and no segment of the negative part does |
| `Filters.FlagMeaning` | thirdparty/gtest-1.6.0/src/gtest.cc:474-502 | a flag `p` or `p-n`, with no dash in `p`: a name of less than 4096 characters is accepted exactly when a segment of `p` globs it (any name for `-n`) and no segment of `n` does; a longer name stands for a message |
| `Filters.EveryFlagHasParts` | thirdparty/gtest-1.6.0/src/gtest.cc:481-496 | every flag has that form |
| `TestSelection.FilterTests` | thirdparty/gtest-1.6.0/src/gtest.cc:4377-4428 | exactly the selected tests should run, and every test knows whether it is disabled and accepted; the number of selected tests is returned, and a case should run exactly when one of its tests does |
| `TestSelection.FilterTest` | thirdparty/gtest-1.6.0/src/gtest.cc:4394-4423 | the three flags of one test: disabled by the name of its case or its own, accepted by the filter, and to be run |
| `TestSelection.RunnableIff` | thirdparty/gtest-1.6.0/src/gtest.cc:4399-4412 | a test disabled by either name is not runnable unless disabled tests are run too; apart from that the filter decides |
| `TestSelection.TestsAreDistinct` | thirdparty/gtest-1.6.0/src/gtest.cc:4388-4394 | no test is listed twice over all cases |
| `Shardings.ShardsPartitionTheRunnableTests` | thirdparty/gtest-1.6.0/src/gtest.cc:4366-4368 | every runnable test is selected on exactly one shard, and no other test on any |
| `Shardings.ShardsAreBalanced` | thirdparty/gtest-1.6.0/src/gtest.cc:4414-4421 | each shard gets its share rounded down or up, so sizes differ by at most one |
| `Shardings.SelectedIff` | thirdparty/gtest-1.6.0/src/gtest.cc:4366-4368 | shard `i` of `n` selects the runnable tests number `i`, `i + n`, `i + 2n` and so on; without sharding all are selected |
| `Shardings.SelectedOnAShard` | thirdparty/gtest-1.6.0/src/gtest.cc:4414-4421 | a shard selects as many tests as there are numbers that fall to it |
| `Residues.CountResidueFormula` | thirdparty/gtest-1.6.0/src/gtest.cc:4366-4368 | each residue occurs n / m times, the first n % m of them once more |
| `Picks.SamePicks` | thirdparty/gtest-1.6.0/src/gtest.cc:2443-2446 | going through marked tests in another order picks the same ones |
| `Picks.EachMarkedItemOnce` | thirdparty/gtest-1.6.0/src/gtest.cc:2312-2313 | of distinct tests each marked one is picked once and no other |
| `TestRuns.SelectTests` | thirdparty/gtest-1.6.0/src/gtest.cc:4177-4182 | filtering leaves the registry as it is and makes exactly the selected tests due |
| `TestRuns.DueInAllCases` | thirdparty/gtest-1.6.0/src/gtest.cc:2430-2447 | what is due in the cases one after the other are all the tests that should run, in the order of registration |
| `TestRuns.RunOnce` | thirdparty/gtest-1.6.0/src/gtest.cc:4213-4264 | one iteration is the run of its schedule, shuffled exactly if requested: exactly the selected tests, those of death test cases first; it leaves the registry in the order of registration |
| `TestRuns.RunAllTests` | thirdparty/gtest-1.6.0/src/gtest.cc:4145-4272 | every iteration is the run of its schedule: the order of registration, shuffled from the seed of the iteration exactly if requested; it runs exactly the selected tests, those of death test cases first; none runs when they are only listed; the registry stays valid, and in the order of registration if it was or anything was iterated |
| `TestRuns.RunsWhatIsDue` | thirdparty/gtest-1.6.0/src/gtest.cc:4235-4238 | every schedule with the death test cases in front runs exactly what is due, tests of death test cases first |
| `TestRuns.SelectedTestsOnce` | thirdparty/gtest-1.6.0/src/gtest.cc:4377-4428 | such a run has each selected test exactly once, no other, and as many as were counted |
| `TestRuns.DeathTestsStayFirst` | thirdparty/gtest-1.6.0/src/gtest.cc:4235-4238 | visiting death test cases first runs their tests first |
| `TestRuns.ShardsRunEverythingOnce` | thirdparty/gtest-1.6.0/src/gtest.cc:4366-4421 | when each shard runs what it selects, all the shards together run every runnable test exactly once and no other |
| `Utf8.CodePointToUtf8` | thirdparty/gtest-1.6.0/src/gtest.cc:1435-1466 | leaves the encoding and the NUL in the buffer, and for values beyond 2^21 - 1 the message, filled up with NULs |
| `Utf8.InvalidTextNamesTheValue` | thirdparty/gtest-1.6.0/src/gtest.cc:1460-1461 | the message begins as in the source, and the value is read back from it |
| `Digits.UpperHexIsRead` | thirdparty/gtest-1.6.0/src/gtest.cc:1461 | a number is read back from its hexadecimal digits |
| `Digits.UpperHexIsCanonical` | thirdparty/gtest-1.6.0/src/gtest.cc:1461 | the digits are upper-case ones without a zero in front |
| `Utf8.DecodeUndoesEncode` | thirdparty/gtest-1.6.0/src/gtest.cc:1435-1466 | every encoding, followed by anything, is decoded to its value |
| `Utf8.EncodeUndoesDecode` | thirdparty/gtest-1.6.0/src/gtest.cc:1435-1466 | whatever decodes is the one encoding of its value: shortest form |
| `Utf8.EncodeIsPrefixFree` | thirdparty/gtest-1.6.0/src/gtest.cc:1435-1466 | no encoding is a prefix of another |
| `Utf8.PairRoundTrip` | thirdparty/gtest-1.6.0/src/gtest.cc:1475-1489 | combining a surrogate pair loses nothing |
| `Utf8.SurrogateRanges` | thirdparty/gtest-1.6.0/src/gtest.cc:1475-1489 | the ranges of both kinds of surrogates, and the code point of a pair |
| `Utf8.ToUtf16OfCodePoints` | thirdparty/gtest-1.6.0/src/gtest.cc:1509-1520 | splitting a wide string into code points and re-encoding it as UTF-16 gives it back |
| `Utf8.WideStringToUtf8` | thirdparty/gtest-1.6.0/src/gtest.cc:1504-1526 | the encodings of the code points of the considered part: for -1 the whole string is recovered from the result, for a number as many characters, below -1 the result is empty |
| `Utf8.DecodeUndoesEncodeAll` | thirdparty/gtest-1.6.0/src/gtest.cc:1504-1526 | decoding undoes the encoding of a whole string |
| `Utf8.EncodeUndoesDecodeAll` | thirdparty/gtest-1.6.0/src/gtest.cc:1504-1526 | encoding undoes the decoding of a whole string |
| `Utf8.ConversionIsLossless` | thirdparty/gtest-1.6.0/src/gtest.cc:1504-1526 | every wide string can be recovered, lone surrogates included |
| `Utf8.EncodedStringIsWellFormed` | thirdparty/gtest-1.6.0/src/gtest.cc:1504-1526 | the output is UTF-8 in the sense of RFC 3629 if and only if the input is well-formed UTF-16 |
| `Utf8.EncodedCharIsWellFormed` | thirdparty/gtest-1.6.0/src/gtest.cc:1435-1466 | an encoding is a well-formed UTF-8 character exactly for Unicode scalar values |
| `Primes.PrimeAbove` | thirdparty/gtest-1.6.0/samples/prime_tables.h:69-75 | above every number there is a prime |
| `Primes.SmallDivisor` | thirdparty/gtest-1.6.0/samples/prime_tables.h:61-64 | a composite number has a divisor up to its square root |
| `Primes.NextPrimeIsUnique` | thirdparty/gtest-1.6.0/samples/prime_tables.h:50-52 | the smallest prime above a number is unique, so all tables that find it agree |
| `PrimeTables.OnTheFlyPrimeTable.IsPrime` | thirdparty/gtest-1.6.0/samples/prime_tables.h:58-67 | decides whether a number is prime |
| `PrimeTables.OnTheFlyPrimeTable.GetNextPrime` | thirdparty/gtest-1.6.0/samples/prime_tables.h:69-75 | terminates with the least prime above `p`, and with -1 at once for a negative `p` |
| `PrimeTables.IsPrime` | thirdparty/gtest-1.6.0/samples/sample1.cc:47-68 | odd trial division with the bound `i > n/i` decides whether a number is prime |
| `PrimeTables.CompositeSievesNothing` | thirdparty/gtest-1.6.0/samples/prime_tables.h:106-107 | skipping the multiples of composite numbers loses nothing |
| `PrimeTables.PreCalculatedPrimeTable.CalculatePrimesUpTo` | thirdparty/gtest-1.6.0/samples/prime_tables.h:102-114 | entry `n` is true exactly when `n` is prime |
| `PrimeTables.PreCalculatedPrimeTable.MarkMultiples` | thirdparty/gtest-1.6.0/samples/prime_tables.h:109-112 | one round of the sieve removes exactly the proper multiples |
| `PrimeTables.PreCalculatedPrimeTable.IsPrime` | thirdparty/gtest-1.6.0/samples/prime_tables.h:89-91 | true exactly for the primes that the table holds |
| `PrimeTables.PreCalculatedPrimeTable.GetNextPrime` | thirdparty/gtest-1.6.0/samples/prime_tables.h:93-99 | the least prime above `p` if the table holds it, -1 otherwise |
| `PrimeTables.HybridPrimeTable.IsPrime` | thirdparty/gtest-1.6.0/samples/sample8_unittest.cc:62-67 | agrees with trial division for every maximum and flag |
| `PrimeTables.HybridPrimeTable.GetNextPrime` | thirdparty/gtest-1.6.0/samples/sample8_unittest.cc:69-75 | agrees with the search on the fly for every maximum, flag and `p` that is not negative; says what happens at -1 |
| `StringLiterals.PrintAsCharLiteralTo` | thirdparty/gtest-1.6.0/src/gtest-printers.cc:154-197 | the text and the format of one character |
| `StringLiterals.PrintAsNarrowStringLiteralTo` | thirdparty/gtest-1.6.0/src/gtest-printers.cc:201-219 | the same inside a string literal, where only the double quote is escaped |
| `StringLiterals.PrintCharsAsStringTo` | thirdparty/gtest-1.6.0/src/gtest-printers.cc:261-275 | the loop writes the literals of all bytes, broken after a hexadecimal escape where the next byte could be read into it |
| `StringLiterals.LiteralForms` | thirdparty/gtest-1.6.0/src/gtest-printers.cc:154-219 | a byte that has a letter in an escape is printed in two characters, other printable ones as they are, the rest in hexadecimal |
| `StringLiterals.BreakIffReadOn` | thirdparty/gtest-1.6.0/src/gtest-printers.cc:267-271 | a new literal is begun exactly where a hexadecimal escape would be read on |
| `StringLiterals.LiteralIsRead` | thirdparty/gtest-1.6.0/src/gtest-printers.cc:154-219 | one byte is read back from its text, unless it is a NUL before an octal digit |
| `StringLiterals.TextIsRead` | thirdparty/gtest-1.6.0/src/gtest-printers.cc:261-275 | exactly what is read back from the printed text |
| `StringLiterals.AbsorbedIff` | thirdparty/gtest-1.6.0/src/gtest-printers.cc:156-158 | that is the original exactly when no NUL is directly followed by an octal digit, and shorter otherwise |
| `StringLiterals.NoTrigraphIsReplaced` | thirdparty/gtest-1.6.0/src/gtest-printers.cc:261-275 | bytes that spell no trigraph are printed without one |
| `StringLiterals.TrigraphsLoseMarks` | thirdparty/gtest-1.6.0/src/gtest-printers.cc:186-188 | replacing a printed trigraph loses a question mark or an escape that nothing later makes up for |
| `StringLiterals.ReadBodyMarks` | thirdparty/gtest-1.6.0/src/gtest-printers.cc:261-275 | reading makes no more question marks and escaped bytes than the text has marks for |
| `StringLiterals.ReadUndoesPrintIff` | thirdparty/gtest-1.6.0/src/gtest-printers.cc:261-275 | reading the output as adjacent C++ literals gives back the bytes if and only if no NUL is followed by an octal digit and no trigraph is spelled |
| `StringLiterals.NulAndDigitAreOneByte` | thirdparty/gtest-1.6.0/src/gtest-printers.cc:156-158 | a concrete string whose two bytes are read back as one |
| `StringLiterals.TrigraphIsOneByte` | thirdparty/gtest-1.6.0/src/gtest-printers.cc:186-188 | a concrete string whose three bytes are read back as one |
| `Xml.OutputXmlCDataSection` | thirdparty/gtest-1.6.0/src/gtest.cc:3203-3220 | the loop over the end marks writes the section of the data |
| `Xml.CDataRestOfSegment` | thirdparty/gtest-1.6.0/src/gtest.cc:3208-3213 | the text in front of an end mark is written as it is |
| `Xml.CDataIsReadBack` | thirdparty/gtest-1.6.0/src/gtest.cc:3203-3220 | after the start mark, every string is read back, overlapping and trailing brackets included |
| `Xml.EndMarkIffInData` | thirdparty/gtest-1.6.0/src/gtest.cc:3208-3219 | an end mark begins in the output only where one begins in the data, or where the data ends |
| `Xml.NormalizedCData` | thirdparty/gtest-1.6.0/src/gtest.cc:3203-3220 | normalizing line ends before or after writing the section is the same |
| `Xml.CDataSectionIsReadBack` | thirdparty/gtest-1.6.0/src/gtest.cc:3203-3220 | every string is read back from its section; after line-end normalization, exactly those without a carriage return |
| `Xml.MessageInCDataSection` | thirdparty/gtest-1.6.0/src/gtest.cc:3257-3261 | a message without its invalid characters makes a section of XML characters that reads as that message |
| `Xml.RemoveInvalidXmlCharacters` | thirdparty/gtest-1.6.0/src/gtest.cc:3169-3177 | keeps exactly the valid characters |
| `Xml.ValidPartIsValid` | thirdparty/gtest-1.6.0/src/gtest.cc:3169-3177 | the result has the valid characters of the text and no others |
| `Xml.ValidMeansXmlChar` | thirdparty/gtest-1.6.0/src/gtest.cc:3019-3026 | for ASCII, the validity test is the one of the XML grammar |
| `Xml.EscapeXml` | thirdparty/gtest-1.6.0/src/gtest.cc:3124-3164 | the loop writes the escapes of all characters |
| `Xml.EscapedIsUnchangedIff` | thirdparty/gtest-1.6.0/src/gtest.cc:3124-3164 | a text stays as it is if and only if it has no special character: nothing else is escaped |
| `Xml.AttributeIsReadBack` | thirdparty/gtest-1.6.0/src/gtest.cc:3124-3164 | decoding an escaped attribute value gives the string without its invalid characters; tabs and line ends survive |
| `Xml.EscapeIsRead` | thirdparty/gtest-1.6.0/src/gtest.cc:3129-3158 | the same for one character with anything behind it |
| `Xml.DecodableHasNoMarkup` | thirdparty/gtest-1.6.0/src/gtest.cc:3124-3164 | a value that can be decoded holds no raw `<` or quote, and no ampersand outside a reference |
| `Xml.TextIsReadBack` | thirdparty/gtest-1.6.0/src/gtest.cc:3124-3164 | escaped text is read back as content, without the invalid characters |
| `ConnectionTable.Connections.AddServerConnection` | server/windows/Connections.cpp:94-99 | the connection is last in the list and found by its identifier; the indexes still agree if and only if its identifier and event were not in use |
| `ConnectionTable.Connections.GetHandleArray` | server/windows/Connections.cpp:24-46 | the server's handle and then a permutation of the events of the connections, rotated by one |
| `ConnectionTable.Connections.RemoveByEvent` | server/windows/Connections.cpp:58-69 | the connection leaves both indexes and is deleted, once |
| `ConnectionTable.Connections.RemoveByIdentifier` | server/windows/Connections.cpp:48-56 | the same as removal by the event of that connection |
| `ConnectionTable.Connections.GetByEvent` | server/windows/Connections.cpp:71-81 | the connection with that event, an exception exactly when there is none |
| `ConnectionTable.Connections.GetByIdentifier` | server/windows/Connections.cpp:83-92 | the connection with that identifier, an exception exactly when there is none |
| `ConnectionTable.Connections.LookupsAgree` | server/windows/Connections.cpp:71-92 | both keys identify the same connections |
| `ConnectionTable.Connections.Shutdown` | server/windows/Server.cpp:117-131 | empties both indexes and deletes every connection exactly once |
| `WaitRotation.BoundedWait` | server/windows/Connections.cpp:33-36 | while no I/O completes, a signalled connection is returned within the worst case, whatever else is signalled and removed |
| `WaitRotation.WorstCaseHappens` | server/windows/Connections.cpp:33-36 | that bound is reached from every position, by rounds that remove only the connection that was served |
| `WaitRotation.WorstCaseDecreases` | server/windows/Connections.cpp:33-36 | every round lowers the bound, whatever is removed |
| `WaitRotation.WaitWhenNeverBroughtToFront` | server/windows/Connections.cpp:33-36 | as many waits as there are connections are enough if no removal brings the connection to the front |
| `WaitRotation.SizeIsABoundIff` | server/windows/Connections.cpp:33-36 | the positions for which the exact bound is at most the number of connections |
| `WaitRotation.SizeIsEnoughIff` | server/windows/Connections.cpp:33-36 | as many waits as there are connections are enough for all runs if and only if the connection is in one of those positions |
| `WaitRotation.FourRoundsAreNotEnough` | server/windows/Connections.cpp:33-36 | four connections and four waits in which one that stays signalled is passed over |
| `WaitRotation.TriangleFormula` | server/windows/Connections.cpp:33-36 | the closed form of the quadratic part of the bound |
| `WaitRotation.PerformWaitForEvents` | server/windows/Server.cpp:205-237 | rotates at every wait, lets clients join in between, and returns the server's event or the lowest signalled connection; a shutdown meanwhile leaves the table empty |
| `WaitRotation.DispatchEvent` | server/windows/Server.cpp:245-293 | the server's own event leaves the table alone; otherwise the connection of the event is found, and leaves and is deleted exactly when the receive completed with nothing and there is a callback |
| `WaitRotation.ServePass` | server/windows/Server.cpp:205-293 | a pass of the server's loop that serves a connection: one rotation for each completion of I/O, after which a client may join, one more for the last wait, and only the connection that was served can leave |
| `WaitRotation.ServeConnection` | server/windows/Server.cpp:242-293 | a pass without completions of I/O is a round of the model: only the connection that was served can leave |
| `WaitRotation.ServeUntilReturned` | server/windows/Server.cpp:239-293 | when no I/O completes in the passes, so that no client joins, the loop over the table returns a connection that stays signalled within the worst case of its place |
| `WaitRotation.EventsAfterWaits` | server/windows/Server.cpp:216-230 | the waits rotate the table as the completions of I/O rotate the list of events |
| `WaitRotation.WithoutEventIsRemaining` | server/windows/Connections.cpp:58-69 | removal from the table is removal from the list of events |
| `Starvation.Starved` | server/windows/Server.cpp:216-230 | for every n a run of n passes in which a connection stays signalled and is never returned, though nobody leaves; nobody joins either if it is not alone |
| `Starvation.BoundExistsIff` | server/windows/Connections.cpp:33-36 | when I/O may complete at any time, there is a bound on the wait if and only if the connection is alone and nobody may join |
| `Starvation.PassedOver` | server/windows/Connections.cpp:33-36 | with another connection in the table a pass can return that one; it takes a completion of I/O only when the starved one is second |
| `Starvation.PassedOverByNewcomer` | server/windows/Connections.cpp:94-99 | a connection that is alone is passed over when a client joins |
| `Starvation.ServeOthers` | server/windows/Server.cpp:239-293 | that run on the table: any number of passes, every one of which returns another connection, and the same connections at the end |
| `Starvation.ReturnedOnceQuiet` | server/windows/Connections.cpp:33-36 | after any passes a connection that stays signalled is returned within a bound counted from the last completion of I/O, in terms of the number of clients that joined |
| `Starvation.QuietRunServes` | server/windows/Server.cpp:216-230 | runs without completions of I/O are the rounds of the bounded wait |
| `LinkedQueue.LinksLeadThrough` | thirdparty/gtest-1.6.0/samples/sample3-inl.h:62-72 | following the links from any node meets the nodes in order and then ends |
| `LinkedQueue.Queue.Enqueue` | thirdparty/gtest-1.6.0/samples/sample3-inl.h:117-128 | appends one element in a new node |
| `LinkedQueue.Queue.Dequeue` | thirdparty/gtest-1.6.0/samples/sample3-inl.h:132-148 | returns the first element and deletes its node, NULL exactly for the empty queue |
| `LinkedQueue.Queue.Clear` | thirdparty/gtest-1.6.0/samples/sample3-inl.h:84-100 | deletes every node, each once, and leaves the empty queue |
| `LinkedQueue.Queue.Map` | thirdparty/gtest-1.6.0/samples/sample3-inl.h:154-161 | a new queue of new nodes with the images in order; the original is untouched |
| `LinkedQueue.Queue.Head` | thirdparty/gtest-1.6.0/samples/sample3-inl.h:106-107 | the node of the first element, NULL exactly for the empty queue |
| `LinkedQueue.Queue.Last` | thirdparty/gtest-1.6.0/samples/sample3-inl.h:110-111 | the node of the last element, NULL exactly for the empty queue |
| `LinkedQueue.Queue.Size` | thirdparty/gtest-1.6.0/samples/sample3-inl.h:103 | the number of elements |
| `WorkerPools.WorkerPool.constructor` | workers/WorkerPool.cpp:7-19 | that many different workers, one thread for each, and the turn of the first |
| `WorkerPools.WorkerPool.Create` | workers/WorkerPool.cpp:7-8 | an exception exactly when the number is not positive |
| `WorkerPools.WorkerPool.NewPoolIsInitial` | workers/WorkerPool.cpp:7-19 | a new pool is represented by every initial state |
| `WorkerPools.WorkerPool.AddWork` | workers/WorkerPool.cpp:30-39 | the work goes to the worker whose turn it is and to no other; in the interleaving model these are five steps of one caller, and the state still represents the pool |
| `WorkerPools.AloneItIsAddWork` | workers/WorkerPool.cpp:30-39 | what five steps of one undisturbed caller do to the interleaving state |
| `WorkerPools.RunKeepsInv` | workers/WorkerPool.cpp:30-39 | the invariant holds in every state of every interleaving |
| `WorkerPools.IndicesInRange` | workers/WorkerPool.cpp:33-37 | the cursor is below the number of workers whenever the mutex is free, one caller at most holds it, and every chosen index is in range |
| `WorkerPools.WorkIsSharedEvenly` | workers/WorkerPool.cpp:33-37 | after k critical sections every worker was chosen k / n times, the first k % n once more, and no call is lost or handed over twice |
| `WorkerPools.NoCallGetsLost` | workers/WorkerPool.cpp:37 | every call is in progress at some caller or has handed over its work |

## Left out

- Sockets, select and poll, pipes, Winsock calls and overlapped I/O: a wait is modelled as the events it finds signalled, completed I/O or a shutdown.
- The POSIX server and client, message buffers, broadcasting and the matching of sends to targets.
- `Connections::~Connections` and the plain accessors `size` and `getConnections`: they would only add easy members.
- What a worker does after `provideWork`, and the destruction of the pool.
- The failures that stop the program (`GTEST_CHECK_` in `ShuffleRange` and `Generate`, a failed allocation): they are preconditions.
- Utf8.WideStringToUtf8: does not model 4-byte `wchar_t`.
- PrimeTables.OnTheFlyPrimeTable.GetNextPrime: does not model the overflow of `int` at which the search would give up.
- PrimeTables.PreCalculatedPrimeTable.GetNextPrime: does not model arguments below -1, for which the code has no defined result.
- PrimeTables.HybridPrimeTable.GetNextPrime: the same, when it has a table.
- StringLiterals.PrintCharsAsStringTo: does not model the variant for wide strings, which differs only in the prefix and the character type.
- Xml.EscapeXml: does not model bytes from 0x80 on, whose validity depends on whether `char` is signed.
- UnitTests.UnitTestImpl.RunIteration: does not model listeners, environments, results and elapsed time; a fatal failure while an environment is set up, which skips the run, is not modelled.
- UnitTests.UnitTestImpl.GetTestCase: models the lookup by name; the lookup by number, which ignores the shuffled index, is not modelled.
- RegexMatch.MatchRegexAnywhere: subjects are at most as long as the largest repeat count, as every C string is.
- LinkedPtrs.LinkedPtr.Assign: does not model assignment between pointers to different types, nor the global mutex; the operations are sequential.
- WaitRotation.PerformWaitForEvents: the callbacks of completed I/O, most of which are not part of the repository, are modelled only by the client they may let join; a shutdown before the first wait of a call is not modelled.
- WaitRotation.ServeUntilReturned: no I/O completes and no client joins in its passes; with completions there is no bound (`Starvation.BoundExistsIff`).
- WaitRotation.ServePass: does not model a callback that itself changes the table or shuts the server down.
- TestRuns.RunAllTests: does not model a negative repeat count, which repeats forever, nor the subprocess of a death test; the protocol of the sharding variables (`ShouldShard`) is a parameter.
- LinkedQueue.Queue.Map: the function is total and has no effects.
- Universal character names and character sets beyond ASCII in C++ literals, and XML markup other than CDATA sections and references.
- Death tests as processes, stream capture, files, flag parsing, coloured output, the streaming listener and the generated headers.
