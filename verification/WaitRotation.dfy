/** How long a connection whose event stays signalled can be passed over.

    A round is one wait: the connections are rotated by one, the wait returns the lowest
    signalled one (the server's own event, which comes before all of them, is not
    signalled, and no I/O completes), and before the next round some of the other
    connections may be removed. `Starvation` is about waits that end with completed I/O. */
module WaitRotation {
  import opened Basics
  import opened ConnectionTable

  datatype Round = Round(signalled: set<Handle>, removed: set<Handle>)

  /** The index of the first signalled handle; the length when there is none. */
  function LowestSignalled(handles: seq<Handle>, signalled: set<Handle>): (k: nat)
    ensures k <= |handles| && (k < |handles| ==> handles[k] in signalled)
    ensures forall j :: 0 <= j < k ==> handles[j] !in signalled
  {
    if handles == [] || handles[0] in signalled then 0 else 1 + LowestSignalled(handles[1..], signalled)
  }

  predicate Returns(handles: seq<Handle>, signalled: set<Handle>, c: Handle) {
    var k := LowestSignalled(handles, signalled);
    k < |handles| && handles[k] == c
  }

  function Remaining(handles: seq<Handle>, removed: set<Handle>): (rest: seq<Handle>)
    ensures |rest| <= |handles|
  {
    if handles == [] then []
    else if handles[0] in removed then Remaining(handles[1..], removed)
    else [handles[0]] + Remaining(handles[1..], removed)
  }

  /** `c` is returned by one of the rounds. */
  predicate Served(handles: seq<Handle>, c: Handle, rounds: seq<Round>)
    decreases |rounds|
  {
    rounds != [] &&
    var rotated := RotatedLeft(handles);
    Returns(rotated, rounds[0].signalled, c) || Served(Remaining(rotated, rounds[0].removed), c, rounds[1..])
  }

  /** `c` stays signalled and is not removed. */
  predicate StaysSignalled(c: Handle, rounds: seq<Round>) {
    forall k :: 0 <= k < |rounds| ==> c in rounds[k].signalled && c !in rounds[k].removed
  }

  // ----- one round, seen from `c` -----

  lemma RotationAround(a: seq<Handle>, c: Handle, b: seq<Handle>)
    ensures RotatedLeft(a + [c] + b) == Ahead(a, b) + [c] + Behind(a, b)
  {
  }

  lemma {:induction false} RemainingConcat(a: seq<Handle>, b: seq<Handle>, removed: set<Handle>)
    ensures Remaining(a + b, removed) == Remaining(a, removed) + Remaining(b, removed)
  {
    if a == [] {
      assert a + b == b;
    } else {
      RemainingConcat(a[1..], b, removed);
      RemainingOfFirst(a, a + b, removed, Remaining(b, removed));
      assert (a + b)[1..] == a[1..] + b;
    }
  }

  lemma RemainingOfFirst(a: seq<Handle>, all: seq<Handle>, removed: set<Handle>, v: seq<Handle>)
    requires a != [] && all != [] && all[0] == a[0]
    ensures Remaining(all[1..], removed) == Remaining(a[1..], removed) + v
            ==> Remaining(all, removed) == Remaining(a, removed) + v
  {
    ConcatAssociates([a[0]], Remaining(a[1..], removed), v);
  }

  lemma RemainingAround(a: seq<Handle>, c: Handle, b: seq<Handle>, removed: set<Handle>)
    requires c !in removed
    ensures Remaining(a + [c] + b, removed) == Remaining(a, removed) + [c] + Remaining(b, removed)
  {
    RemainingConcat(a + [c], b, removed);
    RemainingConcat(a, [c], removed);
    assert Remaining([c], removed) == [c] + Remaining([], removed);
  }

  /** The connections ahead of `c` and behind it, after a rotation. */
  function Ahead(a: seq<Handle>, b: seq<Handle>): seq<Handle> {
    if a == [] then b else a[1..]
  }

  function Behind(a: seq<Handle>, b: seq<Handle>): seq<Handle> {
    if a == [] then [] else b + [a[0]]
  }

  /** Either `c` comes first after the rotation and is returned, or the round leads from one
      split of the connections to the next. */
  lemma RoundAround(a: seq<Handle>, c: Handle, b: seq<Handle>, rounds: seq<Round>)
    requires rounds != [] && c in rounds[0].signalled && c !in rounds[0].removed
    ensures Ahead(a, b) == [] ==> Served(a + [c] + b, c, rounds)
    ensures Served(Remaining(Ahead(a, b), rounds[0].removed) + [c] + Remaining(Behind(a, b), rounds[0].removed),
                   c, rounds[1..])
            ==> Served(a + [c] + b, c, rounds)
  {
    var rotated := RotatedLeft(a + [c] + b);
    RotationAround(a, c, b);
    assert rotated == Ahead(a, b) + [c] + Behind(a, b);
    RemainingAround(Ahead(a, b), c, Behind(a, b), rounds[0].removed);
  }

  // ----- the bound -----

  /** 0 + 1 + ... + (n - 1) */
  function Triangle(n: nat): nat {
    if n == 0 then 0 else Triangle(n - 1) + n - 1
  }

  lemma {:induction false} TriangleFormula(n: nat)
    ensures 2 * Triangle(n) == n * (n - 1)
  {
    if n > 0 {
      TriangleFormula(n - 1);
    }
  }

  lemma {:induction false} TriangleGrows(m: nat, n: nat)
    requires m <= n
    ensures Triangle(m) <= Triangle(n)
    decreases n
  {
    if m < n {
      TriangleGrows(m, n - 1);
    }
  }

  /** The number of rounds after which the connection at index `k` of `n` has been returned
      for certain. */
  function WorstCase(k: nat, n: nat): nat
    requires k < n
  {
    if k == 0 then 1 + Triangle(n) else if k == 1 then 1 else k + Triangle(n - 1)
  }

  /** Whatever is removed ahead of and behind the connection, one round less remains. */
  lemma WorstCaseDecreases(ahead: nat, behind: nat, ahead': nat, behind': nat)
    requires ahead != 1 && (ahead > 0 || behind > 0)
    requires ahead' <= (if ahead == 0 then behind else ahead - 1)
    requires behind' <= (if ahead == 0 then 0 else behind + 1)
    ensures WorstCase(ahead', ahead' + 1 + behind') < WorstCase(ahead, ahead + 1 + behind)
  {
    var n, n' := ahead + 1 + behind, ahead' + 1 + behind';
    if ahead == 0 {
      TriangleGrows(ahead' + 1, n);
      TriangleGrows(2, n);
      assert Triangle(ahead' + 1) == Triangle(ahead') + ahead';
    } else if ahead' == 0 {
      TriangleGrows(n', n - 1);
    } else {
      TriangleGrows(n' - 1, n - 1);
    }
  }

  /** A connection whose event stays signalled is returned within the worst case, whatever
      else is signalled and whichever other connections are removed. */
  lemma {:induction false} BoundedWait(a: seq<Handle>, c: Handle, b: seq<Handle>, rounds: seq<Round>)
    requires StaysSignalled(c, rounds)
    requires |rounds| >= WorstCase(|a|, |a| + 1 + |b|)
    ensures Served(a + [c] + b, c, rounds)
    decreases |rounds|
  {
    RoundAround(a, c, b, rounds);
    if Ahead(a, b) != [] {
      var a' := Remaining(Ahead(a, b), rounds[0].removed);
      var b' := Remaining(Behind(a, b), rounds[0].removed);
      WorstCaseDecreases(|a|, |b|, |a'|, |b'|);
      BoundedWait(a', c, b', rounds[1..]);
    }
  }

  /** Without removals that bring it to the front, `c` is returned when its turn comes. */
  predicate NeverBroughtToFront(handles: seq<Handle>, c: Handle, rounds: seq<Round>)
    decreases |rounds|
  {
    rounds == [] ||
    var rotated := RotatedLeft(handles);
    var rest := Remaining(rotated, rounds[0].removed);
    (rotated != [] && rotated[0] != c ==> rest == [] || rest[0] != c) && NeverBroughtToFront(rest, c, rounds[1..])
  }

  /** As many rounds as there are connections are then enough, and fewer for one that is not
      at the front. */
  lemma {:induction false} WaitWhenNeverBroughtToFront(a: seq<Handle>, c: Handle, b: seq<Handle>, rounds: seq<Round>)
    requires StaysSignalled(c, rounds) && c !in a && c !in b
    requires NeverBroughtToFront(a + [c] + b, c, rounds)
    requires |rounds| >= if a == [] then 1 + |b| else |a|
    ensures Served(a + [c] + b, c, rounds)
    decreases |rounds|
  {
    RoundAround(a, c, b, rounds);
    if Ahead(a, b) != [] {
      var removed := rounds[0].removed;
      var a', b' := Remaining(Ahead(a, b), removed), Remaining(Behind(a, b), removed);
      RotationAround(a, c, b);
      RemainingAround(Ahead(a, b), c, Behind(a, b), removed);
      RemainingMembers(Ahead(a, b), removed);
      RemainingMembers(Behind(a, b), removed);
      var rotated := RotatedLeft(a + [c] + b);
      assert rotated[0] == Ahead(a, b)[0];
      assert (a' + [c] + b')[0] != c;
      WaitWhenNeverBroughtToFront(a', c, b', rounds[1..]);
    }
  }

  lemma {:induction false} RemainingMembers(handles: seq<Handle>, removed: set<Handle>)
    ensures forall h :: h in Remaining(handles, removed) ==> h in handles && h !in removed
  {
    if handles != [] {
      RemainingMembers(handles[1..], removed);
    }
  }

  // ----- the bound is reached -----

  /** A round as the server makes it: all connections are signalled, and at most the one
      that is returned is then removed (because its client disconnected). */
  predicate RemovesOnlyTheReturned(handles: seq<Handle>, rounds: seq<Round>)
    decreases |rounds|
  {
    rounds == [] ||
    var rotated := RotatedLeft(handles);
    && (forall h :: h in rounds[0].removed ==> Returns(rotated, rounds[0].signalled, h))
    && RemovesOnlyTheReturned(Remaining(rotated, rounds[0].removed), rounds[1..])
  }

  lemma {:induction false} RemainingUnaffected(handles: seq<Handle>, removed: set<Handle>)
    requires forall k :: 0 <= k < |handles| ==> handles[k] !in removed
    ensures Remaining(handles, removed) == handles
  {
    if handles != [] {
      RemainingUnaffected(handles[1..], removed);
    }
  }

  lemma RotationStaysDistinct(handles: seq<Handle>)
    requires Distinct(handles)
    ensures Distinct(RotatedLeft(handles))
    ensures forall h :: h in RotatedLeft(handles) <==> h in handles
  {
    var rotated := RotatedLeft(handles);
    assert forall k :: 0 <= k < |rotated| ==> rotated[k] == handles[if k + 1 < |handles| then k + 1 else 0];
    assert forall k :: 0 <= k < |handles| ==> handles[k] == rotated[if k > 0 then k - 1 else |handles| - 1];
  }

  ghost function AllOf(handles: seq<Handle>): set<Handle> {
    set h | h in handles
  }

  /** When everything is signalled, a wait returns the connection in front. Removing it
      leaves the others. */
  lemma FrontIsReturned(handles: seq<Handle>, c: Handle, removesFront: bool)
    requires Distinct(handles) && handles != [] && c in handles && handles[0] != c
    ensures var signalled, removed := AllOf(handles), if removesFront then {handles[0]} else {};
            var rest := if removesFront then handles[1..] else handles;
            && !Returns(handles, signalled, c)
            && (forall h :: h in removed ==> Returns(handles, signalled, h))
            && Remaining(handles, removed) == rest && Distinct(rest)
  {
    var removed := if removesFront then {handles[0]} else {};
    if removesFront {
      assert forall k :: 0 <= k < |handles[1..]| ==> handles[1..][k] == handles[k + 1];
      RemainingUnaffected(handles[1..], removed);
    } else {
      RemainingUnaffected(handles, removed);
    }
  }

  lemma WithoutTheFront(handles: seq<Handle>, ahead: seq<Handle>, c: Handle, behind: seq<Handle>, removesFront: bool)
    requires handles == ahead + [c] + behind && Distinct(handles)
    requires ahead != [] && (removesFront ==> |ahead| == 1)
    ensures c in handles && handles[0] != c
    ensures (if removesFront then handles[1..] else handles) == (if removesFront then [] else ahead) + [c] + behind
  {
    assert handles[0] == ahead[0] && handles[|ahead|] == c;
  }

  /** The same, seen from `c`; the connection in front is only removed when `c` is next. */
  lemma FrontAheadIsReturned(handles: seq<Handle>, ahead: seq<Handle>, c: Handle, behind: seq<Handle>,
                             removesFront: bool)
    requires handles == ahead + [c] + behind && Distinct(handles)
    requires ahead != [] && (removesFront ==> |ahead| == 1)
    ensures var signalled, removed := AllOf(handles), if removesFront then {handles[0]} else {};
            var rest := (if removesFront then [] else ahead) + [c] + behind;
            && c in signalled && c !in removed
            && !Returns(handles, signalled, c)
            && (forall h :: h in removed ==> Returns(handles, signalled, h))
            && Remaining(handles, removed) == rest && Distinct(rest)
  {
    WithoutTheFront(handles, ahead, c, behind, removesFront);
    FrontIsReturned(handles, c, removesFront);
  }

  /** The next round of the worst case: the connection in front is returned, and removed when
      `c` is the next one. */
  lemma WorstRound(a: seq<Handle>, c: Handle, b: seq<Handle>, a': seq<Handle>) returns (round: Round)
    requires Distinct(a + [c] + b) && Ahead(a, b) != []
    requires a' == if |a| == 2 then [] else Ahead(a, b)
    ensures c in round.signalled && c !in round.removed
    ensures var rotated := RotatedLeft(a + [c] + b);
            && !Returns(rotated, round.signalled, c)
            && (forall h :: h in round.removed ==> Returns(rotated, round.signalled, h))
            && Remaining(rotated, round.removed) == a' + [c] + Behind(a, b) && Distinct(a' + [c] + Behind(a, b))
  {
    var rotated := RotatedLeft(a + [c] + b);
    RotationAround(a, c, b);
    RotationStaysDistinct(a + [c] + b);
    FrontAheadIsReturned(rotated, Ahead(a, b), c, Behind(a, b), |a| == 2);
    round := Round(AllOf(rotated), if |a| == 2 then {rotated[0]} else {});
  }

  /** The split of the connections to which that round leads. */
  lemma WorstSplit(a: seq<Handle>, b: seq<Handle>) returns (a': seq<Handle>, b': seq<Handle>)
    requires Ahead(a, b) != []
    ensures a' == (if |a| == 2 then [] else Ahead(a, b)) && b' == Behind(a, b)
    ensures WorstCase(|a'|, |a'| + 1 + |b'|) == WorstCase(|a|, |a| + 1 + |b|) - 1
  {
    a', b' := if |a| == 2 then [] else Ahead(a, b), Behind(a, b);
    WorstCaseByOne(|a|, |b|, |a'|, |b'|);
  }

  /** One more round in front of rounds that pass `c` over. */
  lemma RoundInFront(handles: seq<Handle>, c: Handle, round: Round, next: seq<Handle>, rounds: seq<Round>)
    requires c in round.signalled && c !in round.removed && StaysSignalled(c, rounds)
    requires var rotated := RotatedLeft(handles);
             && !Returns(rotated, round.signalled, c) && next == Remaining(rotated, round.removed)
             && (forall h :: h in round.removed ==> Returns(rotated, round.signalled, h))
    requires RemovesOnlyTheReturned(next, rounds) && !Served(next, c, rounds)
    ensures var all := [round] + rounds;
            StaysSignalled(c, all) && RemovesOnlyTheReturned(handles, all) && !Served(handles, c, all)
  {
    assert ([round] + rounds)[1..] == rounds;
  }

  /** Rounds in which `c` is passed over as long as possible: the connection ahead of it is
      removed each time `c` comes second. */
  lemma {:induction false} WorstCaseHappens(a: seq<Handle>, c: Handle, b: seq<Handle>) returns (rounds: seq<Round>)
    requires Distinct(a + [c] + b)
    ensures |rounds| == WorstCase(|a|, |a| + 1 + |b|) - 1
    ensures StaysSignalled(c, rounds)
    ensures RemovesOnlyTheReturned(a + [c] + b, rounds)
    ensures !Served(a + [c] + b, c, rounds)
    decreases WorstCase(|a|, |a| + 1 + |b|)
  {
    rounds := [];
    if Ahead(a, b) != [] {
      var a', b' := WorstSplit(a, b);
      var round := WorstRound(a, c, b, a');
      var rest := WorstCaseHappens(a', c, b');
      RoundInFront(a + [c] + b, c, round, a' + [c] + b', rest);
      rounds := [round] + rest;
    } else {
      WorstCaseWhenNext(|a|, |b|);
    }
  }

  lemma WorstCaseByOne(ahead: nat, behind: nat, ahead': nat, behind': nat)
    requires ahead != 1 && (ahead > 0 || behind > 0)
    requires ahead' == if ahead == 0 then behind else if ahead == 2 then 0 else ahead - 1
    requires behind' == if ahead == 0 then 0 else behind + 1
    ensures WorstCase(ahead', ahead' + 1 + behind') == WorstCase(ahead, ahead + 1 + behind) - 1
  {
    if ahead == 0 {
      assert Triangle(behind + 1) == Triangle(behind) + behind;
      assert Triangle(2) == Triangle(1) + 1;
    }
  }

  lemma WorstCaseWhenNext(ahead: nat, behind: nat)
    requires ahead == 1 || (ahead == 0 && behind == 0)
    ensures WorstCase(ahead, ahead + 1 + behind) == 1
  {
  }

  // ----- when the number of connections is a bound -----

  lemma {:induction false} ServedStaysServed(handles: seq<Handle>, c: Handle, rounds: seq<Round>, n: nat)
    requires n <= |rounds| && Served(handles, c, rounds[..n])
    ensures Served(handles, c, rounds)
    decreases n
  {
    if !Returns(RotatedLeft(handles), rounds[0].signalled, c) {
      assert rounds[..n][1..] == rounds[1..][..n - 1];
      ServedStaysServed(Remaining(RotatedLeft(handles), rounds[0].removed), c, rounds[1..], n - 1);
    }
  }

  /** Second in the table, or one of at most two connections, or the last of three. */
  predicate SizeIsABound(k: nat, n: nat)
    requires k < n
  {
    k == 1 || n <= 2 || (n == 3 && k == 2)
  }

  lemma SizeIsABoundIff(k: nat, n: nat)
    requires k < n
    ensures WorstCase(k, n) <= n <==> SizeIsABound(k, n)
  {
    assert Triangle(1) == 0 && Triangle(2) == 1 && Triangle(3) == 3;
    if n >= 4 {
      TriangleGrows(4, n);
      assert Triangle(n) == Triangle(n - 1) + n - 1;
      TriangleGrows(3, n - 1);
      assert Triangle(4) == 6;
    }
  }

  /** As many rounds as there are connections are enough, whatever is removed meanwhile,
      exactly in those positions. */
  lemma SizeIsEnoughIff(a: seq<Handle>, c: Handle, b: seq<Handle>)
    requires Distinct(a + [c] + b)
    ensures (forall rounds :: StaysSignalled(c, rounds) && |rounds| >= |a| + 1 + |b| ==> Served(a + [c] + b, c, rounds))
            <==> SizeIsABound(|a|, |a| + 1 + |b|)
  {
    var n, handles := |a| + 1 + |b|, a + [c] + b;
    SizeIsABoundIff(|a|, n);
    forall rounds | StaysSignalled(c, rounds) && |rounds| >= n && SizeIsABound(|a|, n)
      ensures Served(handles, c, rounds)
    {
      BoundedWait(a, c, b, rounds);
    }
    if !SizeIsABound(|a|, n) {
      var rounds := WorstCaseHappens(a, c, b);
      assert |rounds| >= n && !Served(handles, c, rounds);
    }
  }

  /** A round in which all four are signalled and the first after the rotation, which is not
      the fourth, is returned and perhaps removed. */
  lemma FrontRound(handles: seq<Handle>, round: Round, next: seq<Handle>, rounds: seq<Round>,
                   all: seq<Round>)
    requires Distinct(handles) && |handles| > 1 && handles[1] in {1, 2, 3}
    requires 4 in round.signalled && handles[1] in round.signalled
    requires (round.removed == {} && next == handles[1..] + [handles[0]])
             || (round.removed == {handles[1]} && next == handles[2..] + [handles[0]])
    requires StaysSignalled(4, rounds) && RemovesOnlyTheReturned(next, rounds) && !Served(next, 4, rounds)
    requires all == [round] + rounds
    ensures StaysSignalled(4, all) && RemovesOnlyTheReturned(handles, all) && !Served(handles, 4, all)
  {
    var rotated := RotatedLeft(handles);
    assert rotated[0] == handles[1];
    RemainingUnaffected(next, round.removed);
    assert round.removed != {} ==> rotated[1..] == next;
    RoundInFront(handles, 4, round, next, rounds);
  }

  /** Four connections, all signalled throughout. Connection 4 comes last; connection 3 is
      returned in the second round and leaves, which puts 4 in front, and the next rotation
      sends it to the back again: four rounds are not enough. */
  lemma FourRoundsAreNotEnough()
    ensures var all := {1, 2, 3, 4};
            var rounds := [Round(all, {}), Round(all, {3}), Round(all, {}), Round(all, {})];
            && StaysSignalled(4, rounds) && RemovesOnlyTheReturned([1, 2, 3, 4], rounds)
            && !Served([1, 2, 3, 4], 4, rounds)
  {
    var r, s := Round({1, 2, 3, 4}, {}), Round({1, 2, 3, 4}, {3});
    FrontRound([1, 2, 4], r, [2, 4, 1], [], [r]);
    FrontRound([4, 1, 2], r, [1, 2, 4], [r], [r, r]);
    FrontRound([2, 3, 4, 1], s, [4, 1, 2], [r, r], [s, r, r]);
    FrontRound([1, 2, 3, 4], r, [2, 3, 4, 1], [s, r, r], [r, s, r, r]);
  }

  // ----- the waits of the server -----

  datatype Client = Client(connection: ServerConnection, identifier: string)

  /** What one call of the operating system's wait reports: completed I/O, whose callbacks may
      have let a client join, signalled events, or that the server was shut down meanwhile. */
  datatype WaitOutcome =
    | IoCompletion(joined: Option<Client>)
    | Signalled(events: set<Handle>)
    | ShutDown
  {
    predicate Joins() {
      IoCompletion? && joined.Some?
    }
  }

  /** The connections after the waits: each begins with a rotation. */
  ghost function AfterWaits(container: seq<ServerConnection>, outcomes: seq<WaitOutcome>): seq<ServerConnection> {
    if outcomes == [] then container
    else
      var last := outcomes[|outcomes| - 1];
      var rotated := RotatedLeft(AfterWaits(container, outcomes[..|outcomes| - 1]));
      if last.ShutDown? then [] else if last.Joins() then rotated + [last.joined.value.connection] else rotated
  }

  /** The clients that join from outcome `k` on can do so, and do not get in each other's way. */
  ghost predicate CanAllJoin(connections: Connections, outcomes: seq<WaitOutcome>, k: nat)
    reads connections
  {
    && (forall j :: k <= j < |outcomes| && outcomes[j].Joins() ==>
          var c := outcomes[j].joined.value; connections.CanJoin(c.connection, c.identifier))
    && (forall i, j :: k <= i < j < |outcomes| && outcomes[i].Joins() && outcomes[j].Joins() ==>
          var c, d := outcomes[i].joined.value, outcomes[j].joined.value;
          c.identifier != d.identifier && c.connection.event != d.connection.event)
  }

  ghost function Joining(outcomes: seq<WaitOutcome>): set<ServerConnection> {
    set k | 0 <= k < |outcomes| && outcomes[k].Joins() :: outcomes[k].joined.value.connection
  }

  /** The event of one of the connections is among the events. */
  ghost predicate SomeEventIn(container: seq<ServerConnection>, events: set<Handle>) {
    exists c :: c in container && c.event in events
  }

  lemma SomeSignalled(serverHandle: Handle, container: seq<ServerConnection>, events: set<Handle>)
    requires serverHandle in events || SomeEventIn(container, events)
    ensures var j := LowestSignalled([serverHandle] + Events(container), events);
            && j <= |container|
            && if serverHandle in events then j == 0 else j == 1 + LowestSignalled(Events(container), events)
  {
    assert ([serverHandle] + Events(container))[1..] == Events(container);
    if serverHandle !in events {
      var c :| c in container && c.event in events;
      var j :| 0 <= j < |container| && container[j] == c;
      assert Events(container)[j] == c.event;
    }
  }

  /** One wait that ends with completed I/O. */
  method CompleteIo(connections: Connections, ghost outcomes: seq<WaitOutcome>, ghost k: nat, outcome: WaitOutcome)
    requires connections.Valid() && k < |outcomes| && outcome == outcomes[k] && outcome.IoCompletion?
    requires CanAllJoin(connections, outcomes, k)
    modifies connections`container, connections`mapping, Joining(outcomes)`identifier
    ensures connections.Valid() && CanAllJoin(connections, outcomes, k + 1)
    ensures connections.container == old(connections.container)
                                     + if outcome.Joins() then [outcome.joined.value.connection] else []
  {
    if outcome.joined.Some? {
      var client := outcome.joined.value;
      connections.AddServerConnection(client.connection, client.identifier);
    }
  }

  lemma AfterOneMoreWait(container: seq<ServerConnection>, outcomes: seq<WaitOutcome>, k: nat)
    requires k < |outcomes|
    ensures AfterWaits(container, outcomes[..k + 1])
            == var rotated := RotatedLeft(AfterWaits(container, outcomes[..k]));
               if outcomes[k].ShutDown? then []
               else if outcomes[k].Joins() then rotated + [outcomes[k].joined.value.connection] else rotated
  {
    assert outcomes[..k + 1][..k] == outcomes[..k];
  }

  /** Waits again after each completion of I/O, rotating every time; then returns the server's
      event if it is signalled or the server was shut down, and the lowest signalled
      connection otherwise. */
  method PerformWaitForEvents(connections: Connections, serverHandle: Handle, outcomes: seq<WaitOutcome>)
    returns (handle: Handle)
    requires connections.Valid() && CanAllJoin(connections, outcomes, 0)
    requires outcomes != [] && forall k :: 0 <= k < |outcomes| ==> (outcomes[k].IoCompletion? <==> k < |outcomes| - 1)
    requires var last := outcomes[|outcomes| - 1];
             last.Signalled? ==>
               serverHandle in last.events || SomeEventIn(AfterWaits(connections.container, outcomes), last.events)
    modifies connections, Joining(outcomes)`identifier
    ensures connections.Valid()
    ensures connections.container == AfterWaits(old(connections.container), outcomes)
    ensures var last := outcomes[|outcomes| - 1];
            if last.Signalled? && serverHandle !in last.events
            then Returns(Events(connections.container), last.events, handle)
            else handle == serverHandle
    ensures var n := |outcomes| - 1;
            connections.deleted == old(connections.deleted)
                                   + if outcomes[n].ShutDown?
                                     then Members(AfterWaits(old(connections.container), outcomes[..n])) else {}
  {
    ghost var before := connections.container;
    var handles, k := WaitForCompletions(connections, serverHandle, outcomes);
    AfterOneMoreWait(before, outcomes, k);
    assert outcomes[..k + 1] == outcomes;
    RotatedMembers(AfterWaits(before, outcomes[..k]));
    handle := EndWait(connections, serverHandle, handles, outcomes[k]);
  }

  /** The end of the wait: the handle at the lowest signalled index, or the first handle when
      the server was shut down. */
  method EndWait(connections: Connections, serverHandle: Handle, handles: seq<Handle>, outcome: WaitOutcome)
    returns (handle: Handle)
    requires connections.Valid() && !outcome.IoCompletion?
    requires handles == [serverHandle] + Events(connections.container)
    requires outcome.Signalled? ==>
               serverHandle in outcome.events || SomeEventIn(connections.container, outcome.events)
    modifies connections
    ensures connections.Valid()
    ensures outcome.ShutDown? ==>
              connections.container == [] && handle == serverHandle
              && connections.deleted == old(connections.deleted) + Members(old(connections.container))
    ensures outcome.Signalled? ==>
              && connections.container == old(connections.container) && connections.deleted == old(connections.deleted)
              && if serverHandle in outcome.events then handle == serverHandle
                 else Returns(Events(connections.container), outcome.events, handle)
  {
    if outcome.ShutDown? {
      connections.Shutdown();
      handle := handles[0];
    } else {
      handle := LowestHandle(handles, serverHandle, connections.container, outcome.events);
    }
  }

  method LowestHandle(handles: seq<Handle>, serverHandle: Handle, ghost container: seq<ServerConnection>,
                      events: set<Handle>)
    returns (handle: Handle)
    requires handles == [serverHandle] + Events(container)
    requires serverHandle in events || SomeEventIn(container, events)
    ensures if serverHandle in events then handle == serverHandle else Returns(Events(container), events, handle)
  {
    SomeSignalled(serverHandle, container, events);
    var j := LowestSignalled(handles, events);
    handle := handles[j];
    assert serverHandle !in events ==> handle == Events(container)[j - 1];
  }

  lemma RotatedMembers(container: seq<ServerConnection>)
    ensures Members(RotatedLeft(container)) == Members(container)
  {
    RotationPermutes(container);
    assert forall c :: c in container <==> c in multiset(container);
    assert forall c :: c in RotatedLeft(container) <==> c in multiset(RotatedLeft(container));
  }

  method RotateForWait(connections: Connections, serverHandle: Handle, ghost outcomes: seq<WaitOutcome>, ghost k: nat)
    returns (handles: seq<Handle>)
    requires connections.Valid() && CanAllJoin(connections, outcomes, k)
    modifies connections`container
    ensures connections.Valid() && CanAllJoin(connections, outcomes, k)
    ensures connections.container == RotatedLeft(old(connections.container))
    ensures handles == [serverHandle] + Events(connections.container)
  {
    RotatedTable(connections.container);
    handles := connections.GetHandleArray(serverHandle);
  }

  /** Completes the I/O that outcome `k` reports, and rotates for the next wait. */
  method WaitAgain(connections: Connections, serverHandle: Handle, outcomes: seq<WaitOutcome>, k: nat,
                   ghost before: seq<ServerConnection>)
    returns (handles: seq<Handle>)
    requires connections.Valid() && CanAllJoin(connections, outcomes, k)
    requires k < |outcomes| && outcomes[k].IoCompletion?
    requires connections.container == RotatedLeft(AfterWaits(before, outcomes[..k]))
    modifies connections`container, connections`mapping, Joining(outcomes)`identifier
    ensures connections.Valid() && CanAllJoin(connections, outcomes, k + 1)
    ensures connections.container == RotatedLeft(AfterWaits(before, outcomes[..k + 1]))
    ensures handles == [serverHandle] + Events(connections.container)
  {
    AfterOneMoreWait(before, outcomes, k);
    CompleteIo(connections, outcomes, k, outcomes[k]);
    handles := RotateForWait(connections, serverHandle, outcomes, k + 1);
  }

  /** The loop over the waits: `k` is the first that does not end with completed I/O, and
      `handles` is the array it waited on. */
  method WaitForCompletions(connections: Connections, serverHandle: Handle, outcomes: seq<WaitOutcome>)
    returns (handles: seq<Handle>, k: nat)
    requires connections.Valid() && CanAllJoin(connections, outcomes, 0)
    requires outcomes != [] && forall k :: 0 <= k < |outcomes| ==> (outcomes[k].IoCompletion? <==> k < |outcomes| - 1)
    modifies connections`container, connections`mapping, Joining(outcomes)`identifier
    ensures connections.Valid() && k == |outcomes| - 1
    ensures connections.container == RotatedLeft(AfterWaits(old(connections.container), outcomes[..k]))
    ensures handles == [serverHandle] + Events(connections.container)
  {
    ghost var before := connections.container;
    k := 0;
    assert outcomes[..0] == [];
    handles := RotateForWait(connections, serverHandle, outcomes, 0);
    while outcomes[k].IoCompletion?
      invariant k < |outcomes| && connections.Valid() && CanAllJoin(connections, outcomes, k)
      invariant connections.container == RotatedLeft(AfterWaits(before, outcomes[..k]))
      invariant handles == [serverHandle] + Events(connections.container)
      decreases |outcomes| - k
    {
      handles := WaitAgain(connections, serverHandle, outcomes, k, before);
      k := k + 1;
    }
  }

  lemma {:induction false} WithoutEventIsRemaining(container: seq<ServerConnection>, handle: Handle)
    requires DistinctEvents(container)
    ensures Events(WithoutEvent(container, handle)) == Remaining(Events(container), {handle})
  {
    if container != [] {
      var events := Events(container[1..]);
      assert Events(container)[1..] == events;
      if container[0].event == handle {
        RemainingUnaffected(events, {handle});
      } else {
        WithoutEventIsRemaining(container[1..], handle);
        EventsOfFirst(container[0], WithoutEvent(container[1..], handle));
      }
    }
  }

  lemma EventsOfFirst(first: ServerConnection, rest: seq<ServerConnection>)
    ensures Events([first] + rest) == [first.event] + Events(rest)
  {
  }

  /** What a receive on a connection reports, and whether anyone listens. */
  datatype Received = Received(completed: bool, nbBytes: nat, hasCallback: bool) {
    /** The client has disconnected. */
    predicate Disconnects() {
      completed && hasCallback && nbBytes == 0
    }
  }

  /** A receive on a connection: it leaves exactly when nothing more comes from its client. */
  method ReceiveOn(connections: Connections, handle: Handle, received: Received)
    requires connections.Valid() && SomeEventIn(connections.container, {handle})
    modifies connections
    ensures connections.Valid()
    ensures Events(connections.container)
            == Remaining(Events(old(connections.container)), if received.Disconnects() then {handle} else {})
    ensures !received.completed || !received.hasCallback || received.nbBytes > 0 ==>
              connections.container == old(connections.container) && connections.deleted == old(connections.deleted)
    ensures received == Received(true, 0, true) ==>
              && handle !in Events(connections.container)
              && connections.deleted == old(connections.deleted + WithEvent(connections.container, handle))
  {
    var connection := connections.GetByEvent(handle);
    assert connection.Some?;
    ghost var before := connections.container;
    RemainingUnaffected(Events(before), {});
    RemainingMembers(Events(before), {handle});
    WithoutEventIsRemaining(before, handle);
    hide Remaining;
    if received.completed && received.hasCallback && received.nbBytes == 0 {
      connections.RemoveByEvent(connection.value.event);
    }
  }

  /** Handles the event that a wait returned. The server's own event starts the reception of a
      new client's identification, which leaves the table alone; any other event is a receive
      on a connection, which leaves when its client has disconnected. The look-up of the
      connection cannot fail. */
  method DispatchEvent(connections: Connections, serverHandle: Handle, handle: Handle, received: Received)
    requires connections.Valid()
    requires handle == serverHandle || SomeEventIn(connections.container, {handle})
    modifies connections
    ensures connections.Valid()
    ensures handle == serverHandle ==>
              connections.container == old(connections.container) && connections.mapping == old(connections.mapping)
              && connections.deleted == old(connections.deleted)
    ensures handle != serverHandle ==>
              Events(connections.container)
              == Remaining(Events(old(connections.container)), if received.Disconnects() then {handle} else {})
    ensures handle != serverHandle && (!received.completed || !received.hasCallback || received.nbBytes > 0) ==>
              connections.container == old(connections.container) && connections.deleted == old(connections.deleted)
    ensures handle != serverHandle && received == Received(true, 0, true) ==>
              && handle !in Events(connections.container)
              && connections.deleted == old(connections.deleted + WithEvent(connections.container, handle))
  {
    if handle != serverHandle {
      ReceiveOn(connections, handle, received);
    }
  }

  /** The events after completions of I/O: each ends a wait, which began with a rotation, and
      may let a client join. */
  function AfterCompletions(handles: seq<Handle>, joined: seq<Option<Handle>>): seq<Handle>
    decreases |joined|
  {
    if joined == [] then handles
    else
      var n := |joined| - 1;
      var rotated := RotatedLeft(AfterCompletions(handles, joined[..n]));
      if joined[n].Some? then rotated + [joined[n].value] else rotated
  }

  /** The waits end with completed I/O, except for the last, which finds events signalled. */
  predicate EndsSignalled(outcomes: seq<WaitOutcome>) {
    && outcomes != [] && outcomes[|outcomes| - 1].Signalled?
    && forall k :: 0 <= k < |outcomes| - 1 ==> outcomes[k].IoCompletion?
  }

  ghost function JoinedEvents(outcomes: seq<WaitOutcome>, n: nat): (joined: seq<Option<Handle>>)
    requires n <= |outcomes|
    ensures |joined| == n
  {
    seq(n, k requires 0 <= k < n =>
      if outcomes[k].Joins() then Some(outcomes[k].joined.value.connection.event) else None)
  }

  lemma EventsRotated(container: seq<ServerConnection>)
    ensures Events(RotatedLeft(container)) == RotatedLeft(Events(container))
  {
  }

  lemma {:induction false} EventsAfterCompletions(container: seq<ServerConnection>, outcomes: seq<WaitOutcome>,
                                                  n: nat)
    requires n <= |outcomes| && forall k :: 0 <= k < n ==> outcomes[k].IoCompletion?
    ensures Events(AfterWaits(container, outcomes[..n]))
            == AfterCompletions(Events(container), JoinedEvents(outcomes, n))
  {
    if n == 0 {
      assert outcomes[..0] == [];
    } else {
      EventsAfterCompletions(container, outcomes, n - 1);
      AfterOneMoreWait(container, outcomes, n - 1);
      EventsAfterCompletion(AfterWaits(container, outcomes[..n - 1]), Events(container), outcomes, n - 1);
    }
  }

  lemma EventsAfterCompletion(before: seq<ServerConnection>, handles: seq<Handle>, outcomes: seq<WaitOutcome>, k: nat)
    requires k < |outcomes| && Events(before) == AfterCompletions(handles, JoinedEvents(outcomes, k))
    ensures Events(RotatedLeft(before) + if outcomes[k].Joins() then [outcomes[k].joined.value.connection] else [])
            == AfterCompletions(handles, JoinedEvents(outcomes, k + 1))
  {
    EventsRotated(before);
    assert JoinedEvents(outcomes, k + 1)[..k] == JoinedEvents(outcomes, k);
  }

  lemma EventsAfterWaits(container: seq<ServerConnection>, outcomes: seq<WaitOutcome>)
    requires EndsSignalled(outcomes)
    ensures Events(AfterWaits(container, outcomes))
            == RotatedLeft(AfterCompletions(Events(container), JoinedEvents(outcomes, |outcomes| - 1)))
  {
    var n := |outcomes| - 1;
    EventsAfterCompletions(container, outcomes, n);
    AfterOneMoreWait(container, outcomes, n);
    EventsRotated(AfterWaits(container, outcomes[..n]));
    assert outcomes[..n + 1] == outcomes;
  }

  /** One pass of the server's loop in which a connection is served: one rotation for each
      completion of I/O, after which a client may join, and one more for the wait that ends;
      then the lowest signalled connection is returned, and no other leaves. */
  method ServePass(connections: Connections, serverHandle: Handle, outcomes: seq<WaitOutcome>, received: Received)
    returns (handle: Handle, ghost removed: set<Handle>)
    requires connections.Valid() && CanAllJoin(connections, outcomes, 0) && EndsSignalled(outcomes)
    requires var events := outcomes[|outcomes| - 1].events;
             && serverHandle !in events && SomeEventIn(AfterWaits(connections.container, outcomes), events)
    requires serverHandle !in Events(AfterWaits(connections.container, outcomes))
    modifies connections, Joining(outcomes)`identifier
    ensures connections.Valid() && serverHandle !in Events(connections.container)
    ensures var n := |outcomes| - 1;
            var rotated := RotatedLeft(AfterCompletions(Events(old(connections.container)), JoinedEvents(outcomes, n)));
            && Returns(rotated, outcomes[n].events, handle)
            && removed == (if received.Disconnects() then {handle} else {})
            && Events(connections.container) == Remaining(rotated, removed)
  {
    ghost var waited := AfterWaits(connections.container, outcomes);
    EventsAfterWaits(connections.container, outcomes);
    handle := PerformWaitForEvents(connections, serverHandle, outcomes);
    removed := if received.Disconnects() then {handle} else {};
    ServedHandleIsAConnection(waited, serverHandle, outcomes[|outcomes| - 1].events, handle);
    RemainingMembers(Events(waited), removed);
    DispatchEvent(connections, serverHandle, handle, received);
  }

  /** Without completions of I/O a pass is a round as above. */
  method ServeConnection(connections: Connections, serverHandle: Handle, events: set<Handle>, received: Received)
    returns (handle: Handle, ghost removed: set<Handle>)
    requires connections.Valid() && serverHandle !in Events(connections.container)
    requires serverHandle !in events && SomeEventIn(connections.container, events)
    modifies connections
    ensures connections.Valid() && serverHandle !in Events(connections.container)
    ensures var rotated := RotatedLeft(Events(old(connections.container)));
            && Returns(rotated, events, handle)
            && removed == (if received.Disconnects() then {handle} else {})
            && Events(connections.container) == Remaining(rotated, removed)
  {
    ghost var before, outcomes := connections.container, [Signalled(events)];
    AfterOneMoreWait(before, outcomes, 0);
    assert outcomes[..0] == [] && outcomes[..1] == outcomes;
    RotatedTable(before);
    assert JoinedEvents(outcomes, 0) == [];
    handle, removed := ServePass(connections, serverHandle, [Signalled(events)], received);
  }

  lemma ServedHandleIsAConnection(container: seq<ServerConnection>, serverHandle: Handle, events: set<Handle>,
                                  handle: Handle)
    requires serverHandle !in Events(container) && Returns(Events(container), events, handle)
    ensures handle != serverHandle && SomeEventIn(container, {handle})
  {
    var k := LowestSignalled(Events(container), events);
    assert container[k].event == handle == Events(container)[k];
  }

  /** A pass of the server's loop: the events that are signalled, and what the receive on the
      connection that is served reports. */
  datatype Pass = Pass(events: set<Handle>, received: Received)

  /** A pass seen from `c`: either `c` is returned, or the pass leads to a split of the
      connections from which fewer passes are needed. */
  lemma PassAround(a: seq<Handle>, c: Handle, b: seq<Handle>, events: set<Handle>, handle: Handle,
                   removed: set<Handle>)
    returns (a': seq<Handle>, b': seq<Handle>)
    requires c in events && Returns(RotatedLeft(a + [c] + b), events, handle)
    requires handle != c && removed <= {handle}
    ensures Remaining(RotatedLeft(a + [c] + b), removed) == a' + [c] + b'
    ensures WorstCase(|a'|, |a'| + 1 + |b'|) < WorstCase(|a|, |a| + 1 + |b|)
  {
    RotationAround(a, c, b);
    RemainingAround(Ahead(a, b), c, Behind(a, b), removed);
    a', b' := Remaining(Ahead(a, b), removed), Remaining(Behind(a, b), removed);
    assert Ahead(a, b) != [];
    WorstCaseDecreases(|a|, |b|, |a'|, |b'|);
  }

  /** The server's loop until it returns a connection that stays signalled: that takes at most
      the worst case of its place, whatever else is signalled and whoever disconnects. */
  method ServeUntilReturned(connections: Connections, serverHandle: Handle, c: Handle, passes: seq<Pass>,
                            ghost a: seq<Handle>, ghost b: seq<Handle>)
    returns (handles: seq<Handle>)
    requires connections.Valid() && Events(connections.container) == a + [c] + b && serverHandle !in a + [c] + b
    requires forall k :: 0 <= k < |passes| ==> c in passes[k].events && serverHandle !in passes[k].events
    requires |passes| >= WorstCase(|a|, |a| + 1 + |b|)
    modifies connections
    ensures connections.Valid()
    ensures 0 < |handles| <= WorstCase(|a|, |a| + 1 + |b|)
    ensures handles[|handles| - 1] == c && c !in handles[..|handles| - 1]
  {
    handles := [];
    ghost var a', b' := a, b;
    var handle := serverHandle;
    while handle != c
      invariant connections.Valid() && c != serverHandle
      invariant handle != c ==>
                  && Events(connections.container) == a' + [c] + b' && serverHandle !in a' + [c] + b'
                  && |handles| + WorstCase(|a'|, |a'| + 1 + |b'|) <= WorstCase(|a|, |a| + 1 + |b|)
                  && c !in handles
      invariant handle == c ==>
                  && 0 < |handles| <= WorstCase(|a|, |a| + 1 + |b|)
                  && handles[|handles| - 1] == c && c !in handles[..|handles| - 1]
      decreases handle != c, WorstCase(|a|, |a| + 1 + |b|) - |handles|
    {
      var pass := passes[|handles|];
      SignalledInTable(connections.container, a', c, b', pass.events);
      ghost var removed;
      handle, removed := ServeConnection(connections, serverHandle, pass.events, pass.received);
      if handle != c {
        a', b' := PassAround(a', c, b', pass.events, handle, removed);
      }
      handles := handles + [handle];
    }
  }

  lemma SignalledInTable(container: seq<ServerConnection>, a: seq<Handle>, c: Handle, b: seq<Handle>,
                         events: set<Handle>)
    requires Events(container) == a + [c] + b && c in events
    ensures SomeEventIn(container, events) && WorstCase(|a|, |a| + 1 + |b|) > 0
  {
    assert container[|a|].event == (a + [c] + b)[|a|] == c;
  }
}
