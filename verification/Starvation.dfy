/** How completions of I/O make a connection wait: each costs a rotation that returns nobody,
    and lets a client join. */
module Starvation {
  import opened Basics
  import opened ConnectionTable
  import opened WaitRotation

  /** Passes of the server's loop up to one that serves a connection: completions of I/O, each
      with the event of the client that joined, if any, and then a round. A pass for the
      server's own event rotates the connections like a completion without a client. */
  datatype BusyRound = BusyRound(joined: seq<Option<Handle>>, round: Round)

  /** The events at the end of the last wait of the pass. */
  function Waited(handles: seq<Handle>, busy: BusyRound): seq<Handle> {
    RotatedLeft(AfterCompletions(handles, busy.joined))
  }

  function AfterPass(handles: seq<Handle>, busy: BusyRound): seq<Handle> {
    Remaining(Waited(handles, busy), busy.round.removed)
  }

  /** `c` is returned by one of the passes. */
  predicate EverReturned(handles: seq<Handle>, c: Handle, run: seq<BusyRound>)
    decreases |run|
  {
    run != []
    && (Returns(Waited(handles, run[0]), run[0].round.signalled, c)
        || EverReturned(AfterPass(handles, run[0]), c, run[1..]))
  }

  predicate SignalledThroughout(c: Handle, run: seq<BusyRound>) {
    forall k :: 0 <= k < |run| ==> c in run[k].round.signalled && c !in run[k].round.removed
  }

  /** Clients join with events that are not in use. */
  predicate CanComplete(handles: seq<Handle>, joined: seq<Option<Handle>>)
    decreases |joined|
  {
    joined == [] ||
    var n := |joined| - 1;
    && CanComplete(handles, joined[..n])
    && (joined[n].Some? ==> joined[n].value !in AfterCompletions(handles, joined[..n]))
  }

  predicate NobodyJoins(joined: seq<Option<Handle>>) {
    forall k :: 0 <= k < |joined| ==> joined[k].None?
  }

  /** A pass as the server makes it: only the connection that is returned can leave. */
  predicate CanHappen(handles: seq<Handle>, busy: BusyRound, mayJoin: bool) {
    && CanComplete(handles, busy.joined) && (mayJoin || NobodyJoins(busy.joined))
    && forall h :: h in busy.round.removed ==> Returns(Waited(handles, busy), busy.round.signalled, h)
  }

  predicate CanRun(handles: seq<Handle>, run: seq<BusyRound>, mayJoin: bool)
    decreases |run|
  {
    run == [] || (CanHappen(handles, run[0], mayJoin) && CanRun(AfterPass(handles, run[0]), run[1..], mayJoin))
  }

  // ----- a run that never returns `c` -----

  lemma OneCompletion(handles: seq<Handle>, joined: Option<Handle>)
    requires joined.Some? ==> joined.value !in handles
    ensures CanComplete(handles, [joined])
    ensures AfterCompletions(handles, [joined])
            == RotatedLeft(handles) + if joined.Some? then [joined.value] else []
  {
    assert [joined][..0] == [];
    assert CanComplete(handles, [joined][..0]) && AfterCompletions(handles, [joined][..0]) == handles;
  }

  /** A pass in which everybody is signalled returns the connection in front. */
  lemma FrontPass(handles: seq<Handle>, c: Handle, joined: seq<Option<Handle>>, ahead: seq<Handle>,
                  behind: seq<Handle>)
    returns (busy: BusyRound)
    requires RotatedLeft(AfterCompletions(handles, joined)) == ahead + [c] + behind
    requires Distinct(ahead + [c] + behind) && ahead != []
    ensures busy == BusyRound(joined, Round(AllOf(ahead + [c] + behind), {})) && c in busy.round.signalled
    ensures !Returns(Waited(handles, busy), busy.round.signalled, c) && AfterPass(handles, busy) == ahead + [c] + behind
  {
    var rotated := ahead + [c] + behind;
    FrontAheadIsReturned(rotated, ahead, c, behind, false);
    busy := BusyRound(joined, Round(AllOf(rotated), {}));
  }

  lemma RotationAroundDistinct(a: seq<Handle>, c: Handle, b: seq<Handle>)
    requires Distinct(a + [c] + b)
    ensures RotatedLeft(a + [c] + b) == Ahead(a, b) + [c] + Behind(a, b)
    ensures Distinct(Ahead(a, b) + [c] + Behind(a, b)) && AllOf(Ahead(a, b) + [c] + Behind(a, b)) == AllOf(a + [c] + b)
  {
    RotationAround(a, c, b);
    RotationStaysDistinct(a + [c] + b);
  }

  /** With another connection in the table, a pass can return that one instead. It needs a
      completion of I/O only when `c` would come to the front. */
  lemma PassedOver(a: seq<Handle>, c: Handle, b: seq<Handle>)
    returns (busy: BusyRound, a': seq<Handle>, b': seq<Handle>)
    requires Distinct(a + [c] + b) && |a| + |b| > 0
    ensures busy == BusyRound(if |a| == 1 then [None] else [], Round(AllOf(a + [c] + b), {}))
    ensures CanHappen(a + [c] + b, busy, false) && c in busy.round.signalled
    ensures !Returns(Waited(a + [c] + b, busy), busy.round.signalled, c)
    ensures Waited(a + [c] + b, busy) == AfterPass(a + [c] + b, busy) == a' + [c] + b' && Distinct(a' + [c] + b')
    ensures |a'| + |b'| == |a| + |b| && AllOf(a' + [c] + b') == AllOf(a + [c] + b)
  {
    RotationAroundDistinct(a, c, b);
    a', b' := Ahead(a, b), Behind(a, b);
    var joined := [];
    if |a| == 1 {
      joined := [None];
      OneCompletion(a + [c] + b, None);
      assert RotatedLeft(a + [c] + b) + [] == RotatedLeft(a + [c] + b);
      RotationAroundDistinct(a', c, b');
      a', b' := Ahead(a', b'), Behind(a', b');
    }
    busy := FrontPass(a + [c] + b, c, joined, a', b');
  }

  /** A connection that is alone is passed over when another client joins. */
  lemma PassedOverByNewcomer(c: Handle, d: Handle) returns (busy: BusyRound)
    requires d != c
    ensures CanHappen([c], busy, true) && c in busy.round.signalled && busy.round.removed == {}
    ensures !Returns(Waited([c], busy), busy.round.signalled, c) && AfterPass([c], busy) == [d] + [c] + []
  {
    OneCompletion([c], Some(d));
    assert RotatedLeft([c]) + [d] == [c, d] && RotatedLeft([c, d]) == [d] + [c] + [];
    busy := FrontPass([c], c, [Some(d)], [d], []);
  }

  lemma PassInFront(handles: seq<Handle>, c: Handle, busy: BusyRound, next: seq<Handle>, run: seq<BusyRound>,
                    mayJoin: bool)
    requires CanHappen(handles, busy, mayJoin) && c in busy.round.signalled && c !in busy.round.removed
    requires !Returns(Waited(handles, busy), busy.round.signalled, c) && next == AfterPass(handles, busy)
    requires CanRun(next, run, mayJoin) && SignalledThroughout(c, run) && !EverReturned(next, c, run)
    ensures var all := [busy] + run;
            CanRun(handles, all, mayJoin) && SignalledThroughout(c, all) && !EverReturned(handles, c, all)
  {
    assert ([busy] + run)[1..] == run;
  }

  /** A run of any length in which `c` stays signalled and is never returned, and nobody
      leaves. Nobody needs to join either, if `c` is not alone. */
  lemma {:induction false} Starved(a: seq<Handle>, c: Handle, b: seq<Handle>, mayJoin: bool, n: nat)
    returns (run: seq<BusyRound>)
    requires Distinct(a + [c] + b)
    requires mayJoin || |a| + |b| > 0
    ensures |run| == n && CanRun(a + [c] + b, run, mayJoin)
    ensures SignalledThroughout(c, run) && forall k :: 0 <= k < n ==> run[k].round.removed == {}
    ensures !EverReturned(a + [c] + b, c, run)
    decreases n
  {
    run := [];
    if n > 0 {
      var busy, a', b' := PassedOverSomehow(a, c, b, mayJoin);
      var rest := Starved(a', c, b', mayJoin, n - 1);
      PassInFront(a + [c] + b, c, busy, a' + [c] + b', rest, mayJoin);
      run := [busy] + rest;
    }
  }

  lemma PassedOverSomehow(a: seq<Handle>, c: Handle, b: seq<Handle>, mayJoin: bool)
    returns (busy: BusyRound, a': seq<Handle>, b': seq<Handle>)
    requires Distinct(a + [c] + b)
    requires mayJoin || |a| + |b| > 0
    ensures CanHappen(a + [c] + b, busy, mayJoin) && c in busy.round.signalled && busy.round.removed == {}
    ensures !Returns(Waited(a + [c] + b, busy), busy.round.signalled, c)
    ensures AfterPass(a + [c] + b, busy) == a' + [c] + b' && Distinct(a' + [c] + b') && |a'| + |b'| > 0
  {
    if |a| + |b| > 0 {
      busy, a', b' := PassedOver(a, c, b);
    } else {
      assert a + [c] + b == [c];
      busy := PassedOverByNewcomer(c, c + 1);
      a', b' := [c + 1], [];
    }
  }

  // ----- the same on the table -----

  /** The waits of a pass in which everybody is signalled, with or without one completion of
      I/O before. */
  function WaitsOf(completes: bool, events: set<Handle>): seq<WaitOutcome> {
    if completes then [IoCompletion(None), Signalled(events)] else [Signalled(events)]
  }

  lemma WaitsOfPass(container: seq<ServerConnection>, completes: bool, events: set<Handle>)
    ensures var outcomes := WaitsOf(completes, events);
            && EndsSignalled(outcomes) && Joining(outcomes) == {}
            && JoinedEvents(outcomes, |outcomes| - 1) == (if completes then [None] else [])
            && Events(AfterWaits(container, outcomes))
               == RotatedLeft(AfterCompletions(Events(container), if completes then [None] else []))
  {
    EventsAfterWaits(container, WaitsOf(completes, events));
  }

  /** What such a pass does to the table, when it completes I/O exactly if `c` is second. */
  lemma PassOnTable(container: seq<ServerConnection>, c: Handle, events: set<Handle>, serverHandle: Handle,
                    a: seq<Handle>, b: seq<Handle>)
    returns (outcomes: seq<WaitOutcome>, a': seq<Handle>, b': seq<Handle>)
    requires DistinctEvents(container) && Events(container) == a + [c] + b && |a| + |b| > 0
    requires events == AllOf(a + [c] + b) && serverHandle !in events
    ensures outcomes == WaitsOf(container[1].event == c, events) && EndsSignalled(outcomes) && Joining(outcomes) == {}
    ensures SomeEventIn(AfterWaits(container, outcomes), events)
    ensures serverHandle !in Events(AfterWaits(container, outcomes))
    ensures RotatedLeft(AfterCompletions(Events(container), JoinedEvents(outcomes, |outcomes| - 1))) == a' + [c] + b'
    ensures !Returns(a' + [c] + b', events, c) && Remaining(a' + [c] + b', {}) == a' + [c] + b'
    ensures |a'| + |b'| == |a| + |b| && AllOf(a' + [c] + b') == events
  {
    var completes := container[1].event == c;
    assert (a + [c] + b)[|a|] == c;
    assert completes <==> |a| == 1;
    var busy;
    busy, a', b' := PassedOver(a, c, b);
    outcomes := WaitsOf(completes, events);
    WaitsOfPass(container, completes, events);
    EventIn(AfterWaits(container, outcomes), a', c, b');
    RemainingUnaffected(a' + [c] + b', {});
  }

  lemma EventIn(container: seq<ServerConnection>, a: seq<Handle>, c: Handle, b: seq<Handle>)
    requires Events(container) == a + [c] + b
    ensures SomeEventIn(container, AllOf(a + [c] + b))
    ensures forall h :: h in Events(container) ==> h in AllOf(a + [c] + b)
  {
    SignalledInTable(container, a, c, b, AllOf(a + [c] + b));
  }

  /** One pass over the table that returns another connection than `c`. */
  method ServeAnother(connections: Connections, serverHandle: Handle, c: Handle, events: set<Handle>,
                      ghost a: seq<Handle>, ghost b: seq<Handle>)
    returns (handle: Handle, ghost a': seq<Handle>, ghost b': seq<Handle>)
    requires connections.Valid() && Events(connections.container) == a + [c] + b && |a| + |b| > 0
    requires events == AllOf(a + [c] + b) && serverHandle !in events
    modifies connections
    ensures connections.Valid() && Events(connections.container) == a' + [c] + b' && |a'| + |b'| == |a| + |b|
    ensures events == AllOf(a' + [c] + b') && handle != c
  {
    ghost var outcomes, removed;
    outcomes, a', b' := PassOnTable(connections.container, c, events, serverHandle, a, b);
    handle, removed := ServePass(connections, serverHandle, WaitsOf(connections.container[1].event == c, events),
      Received(true, 1, true));
  }

  /** The loop of the server returns others for as many passes as one likes, if `c` is not
      alone; nobody joins or leaves, and everybody is signalled all the time. */
  method ServeOthers(connections: Connections, serverHandle: Handle, c: Handle, events: set<Handle>, n: nat,
                     ghost a: seq<Handle>, ghost b: seq<Handle>)
    returns (handles: seq<Handle>)
    requires connections.Valid() && Events(connections.container) == a + [c] + b && |a| + |b| > 0
    requires events == AllOf(a + [c] + b) && serverHandle !in events
    modifies connections
    ensures connections.Valid() && AllOf(Events(connections.container)) == events
    ensures |handles| == n && c !in handles
  {
    handles := [];
    ghost var a', b' := a, b;
    while |handles| < n
      invariant connections.Valid() && Events(connections.container) == a' + [c] + b' && |a'| + |b'| > 0
      invariant events == AllOf(a' + [c] + b') && c !in handles && |handles| <= n
    {
      var handle;
      handle, a', b' := ServeAnother(connections, serverHandle, c, events, a', b');
      handles := handles + [handle];
    }
  }

  // ----- when there is a bound -----

  /** Every run of that length returns `c`. */
  ghost predicate IsABound(handles: seq<Handle>, c: Handle, mayJoin: bool, bound: nat) {
    forall run :: CanRun(handles, run, mayJoin) && SignalledThroughout(c, run) && |run| >= bound
                  ==> EverReturned(handles, c, run)
  }

  lemma {:induction false} AloneAfterCompletions(c: Handle, joined: seq<Option<Handle>>)
    requires NobodyJoins(joined)
    ensures AfterCompletions([c], joined) == [c]
    decreases |joined|
  {
    if joined != [] {
      AloneAfterCompletions(c, joined[..|joined| - 1]);
    }
  }

  /** When I/O may complete at any time, the wait is bounded only for a connection that is
      and stays alone in the table. */
  lemma BoundExistsIff(a: seq<Handle>, c: Handle, b: seq<Handle>, mayJoin: bool)
    requires Distinct(a + [c] + b)
    ensures (exists bound: nat :: IsABound(a + [c] + b, c, mayJoin, bound)) <==> !mayJoin && |a| + |b| == 0
  {
    var handles := a + [c] + b;
    if mayJoin || |a| + |b| > 0 {
      forall bound: nat ensures !IsABound(handles, c, mayJoin, bound) {
        var run := Starved(a, c, b, mayJoin, bound);
      }
    } else {
      assert handles == [c];
      forall run: seq<BusyRound> | CanRun([c], run, false) && SignalledThroughout(c, run) && |run| >= 1
        ensures EverReturned([c], c, run)
      {
        AloneAfterCompletions(c, run[0].joined);
        assert Waited([c], run[0]) == [c];
      }
      assert IsABound(handles, c, mayJoin, 1);
    }
  }

  // ----- once no I/O completes any more -----

  /** Rounds are passes without completions. */
  function Quiet(rounds: seq<Round>): (run: seq<BusyRound>)
    ensures |run| == |rounds|
  {
    seq(|rounds|, k requires 0 <= k < |rounds| => BusyRound([], rounds[k]))
  }

  lemma {:induction false} QuietRunServes(handles: seq<Handle>, c: Handle, rounds: seq<Round>)
    ensures EverReturned(handles, c, Quiet(rounds)) <==> Served(handles, c, rounds)
    decreases |rounds|
  {
    if rounds != [] {
      var next := Remaining(RotatedLeft(handles), rounds[0].removed);
      QuietRunServes(next, c, rounds[1..]);
      assert Quiet(rounds)[1..] == Quiet(rounds[1..]);
    }
  }

  function NewClients(joined: seq<Option<Handle>>): nat
    decreases |joined|
  {
    if joined == [] then 0
    else NewClients(joined[..|joined| - 1]) + if joined[|joined| - 1].Some? then 1 else 0
  }

  function NewClientsIn(run: seq<BusyRound>): nat {
    if run == [] then 0 else NewClients(run[0].joined) + NewClientsIn(run[1..])
  }

  lemma {:induction false} SplitAfterCompletions(a: seq<Handle>, c: Handle, b: seq<Handle>, joined: seq<Option<Handle>>)
    returns (a': seq<Handle>, b': seq<Handle>)
    ensures AfterCompletions(a + [c] + b, joined) == a' + [c] + b'
    ensures |a'| + |b'| == |a| + |b| + NewClients(joined)
    decreases |joined|
  {
    a', b' := a, b;
    if joined != [] {
      var n := |joined| - 1;
      a', b' := SplitAfterCompletions(a, c, b, joined[..n]);
      RotationAround(a', c, b');
      a', b' := Ahead(a', b'), Behind(a', b');
      if joined[n].Some? {
        ConcatAssociates(a' + [c], b', [joined[n].value]);
        b' := b' + [joined[n].value];
      }
    }
  }

  lemma SplitAfterPass(a: seq<Handle>, c: Handle, b: seq<Handle>, busy: BusyRound)
    returns (a': seq<Handle>, b': seq<Handle>)
    requires c !in busy.round.removed
    ensures AfterPass(a + [c] + b, busy) == a' + [c] + b'
    ensures |a'| + |b'| <= |a| + |b| + NewClients(busy.joined)
  {
    a', b' := SplitAfterCompletions(a, c, b, busy.joined);
    RotationAround(a', c, b');
    a', b' := Ahead(a', b'), Behind(a', b');
    RemainingAround(a', c, b', busy.round.removed);
    a', b' := Remaining(a', busy.round.removed), Remaining(b', busy.round.removed);
  }

  lemma WorstCaseOfSize(k: nat, n: nat, m: nat)
    requires k < n <= m
    ensures WorstCase(k, n) <= 1 + Triangle(m)
  {
    TriangleGrows(n, m);
  }

  /** Whatever happened before, a connection that stays signalled is returned within a bound
      that is counted from the last completion of I/O; it depends on the number of clients
      that joined. */
  lemma {:induction false} ReturnedOnceQuiet(a: seq<Handle>, c: Handle, b: seq<Handle>, run: seq<BusyRound>,
                                             rounds: seq<Round>)
    requires SignalledThroughout(c, run) && StaysSignalled(c, rounds)
    requires |rounds| >= 1 + Triangle(|a| + 1 + |b| + NewClientsIn(run))
    ensures EverReturned(a + [c] + b, c, run + Quiet(rounds))
    decreases |run|
  {
    if run == [] {
      WorstCaseOfSize(|a|, |a| + 1 + |b|, |a| + 1 + |b|);
      BoundedWait(a, c, b, rounds);
      QuietRunServes(a + [c] + b, c, rounds);
      assert run + Quiet(rounds) == Quiet(rounds);
    } else {
      var a', b' := SplitAfterPass(a, c, b, run[0]);
      TriangleGrows(|a'| + 1 + |b'| + NewClientsIn(run[1..]), |a| + 1 + |b| + NewClientsIn(run));
      ReturnedOnceQuiet(a', c, b', run[1..], rounds);
      assert (run + Quiet(rounds))[1..] == run[1..] + Quiet(rounds);
    }
  }
}
