/** The worker pool: work is handed to the workers in turn, the turn being taken under a
    mutex.

    `WorkerPool` is the object as one caller sees it. `State` and `Next` are the same pool
    with any number of callers inside `AddWork` at once, in the smallest steps that can
    interleave; `AddWork` goes through those steps (`Represents`, `Alone`). What a worker does
    with the work it is given is not part of this model. */
module WorkerPools {
  import opened Basics
  import opened Residues

  type Work = string

  class Worker {
    var provided: seq<Work>

    constructor ()
      ensures provided == []
    {
      provided := [];
    }

    method ProvideWork(work: Work)
      modifies this`provided
      ensures provided == old(provided) + [work]
    {
      provided := provided + [work];
    }
  }

  class WorkerPool {
    var workers: seq<Worker>
    var threads: seq<Worker>
    var currentWorker: nat

    /** One thread runs each worker, and the turn is that of an existing worker. */
    ghost predicate Valid()
      reads this
    {
      && currentWorker < |workers| && threads == workers
      && Distinct(workers)
    }

    constructor (nbWorkers: nat)
      requires nbWorkers > 0
      ensures Valid() && |workers| == nbWorkers && currentWorker == 0
      ensures forall k :: 0 <= k < nbWorkers ==> fresh(workers[k]) && workers[k].provided == []
    {
      workers, threads := [], [];
      currentWorker := 0;
      new;
      for i := 0 to nbWorkers
        invariant |workers| == i && threads == [] && currentWorker == 0
        invariant forall k :: 0 <= k < i ==> fresh(workers[k]) && workers[k].provided == []
        invariant Distinct(workers)
      {
        var worker := new Worker();
        workers := workers + [worker];
      }
      for i := 0 to |workers|
        invariant |workers| == nbWorkers && threads == workers[..i] && currentWorker == 0
        invariant forall k :: 0 <= k < nbWorkers ==> fresh(workers[k]) && workers[k].provided == []
        invariant Distinct(workers)
      {
        threads := threads + [workers[i]];
      }
    }

    /** `None` stands for the exception. */
    static method Create(nbWorkers: int) returns (pool: Option<WorkerPool>)
      ensures pool.None? <==> nbWorkers <= 0
      ensures pool.Some? ==> fresh(pool.value) && pool.value.Valid() && |pool.value.workers| == nbWorkers
    {
      if nbWorkers <= 0 {
        return None;
      }
      var p := new WorkerPool(nbWorkers);
      pool := Some(p);
    }

    /** The state is that of this pool: the same cursor, and every worker was given the work of
        the calls that handed it over to that worker. */
    ghost predicate Represents(s: State)
      reads this, workers
    {
      && s.currentWorker == currentWorker
      && (forall t :: t in s.handed ==> t < |s.chosen|)
      && (forall k :: 0 <= k < |workers| ==> |workers[k].provided| == |HandedTo(s, k)|)
    }

    /** A new pool is in every initial state. */
    lemma NewPoolIsInitial(s: State)
      requires Init(s) && currentWorker == 0 && forall k :: 0 <= k < |workers| ==> workers[k].provided == []
      ensures Represents(s)
    {
      assert forall k :: 0 <= k < |workers| ==> HandedTo(s, k) == {};
    }

    /** The work goes to the worker whose turn it is, and the turn to the next one. In any state
        that represents the pool, with the mutex free, these are the five steps of the caller. */
    method AddWork(work: Work, ghost s: State, ghost c: Caller) returns (ghost after: State)
      requires Valid() && Represents(s)
      requires s.owner.None? && c in s.position && s.position[c].Outside?
      modifies this`currentWorker, workers`provided
      ensures Valid() && currentWorker == if old(currentWorker) + 1 == |workers| then 0 else old(currentWorker) + 1
      ensures forall k :: 0 <= k < |workers| ==>
                workers[k].provided == old(workers[k].provided) + if k == old(currentWorker) then [work] else []
      ensures after == Alone(s, c, |workers|, 5) && Represents(after)
    {
      ghost var n := |workers|;
      ghost var locked := After(s, c, n);
      var worker := currentWorker;
      currentWorker := currentWorker + 1;
      ghost var incremented := After(locked, c, n);
      ChoosingAlone(s, c, n);
      assert incremented.currentWorker == currentWorker && incremented.position[c] == Incremented(worker, |s.chosen|);
      if currentWorker >= |workers| {
        currentWorker := 0;
      }
      ghost var wrapped := After(incremented, c, n);
      ghost var released := After(wrapped, c, n);
      assert forall k :: 0 <= k < |workers| && k != worker ==> workers[k] != workers[worker];
      workers[worker].ProvideWork(work);
      after := After(released, c, n);
      AloneIsFiveSteps(s, locked, incremented, wrapped, released, after, c, n);
      AloneItIsAddWork(s, c, n);
      HandedToOneMore(s, after, worker, n);
    }
  }

  // ----- any number of callers at once -----

  /** Where a caller is in `AddWork`, the index it read, and which call this is, counting the
      critical sections. */
  datatype Position =
    | Outside
    | Locked
    | Incremented(worker: nat, ticket: nat)
    | Wrapped(worker: nat, ticket: nat)
    | Released(worker: nat, ticket: nat)

  type Caller = nat

  /** `chosen` lists the workers in the order in which they were chosen; `handed` the calls
      that have handed over their work, with the worker they gave it to. */
  datatype State = State(currentWorker: nat, owner: Option<Caller>, position: map<Caller, Position>,
                         chosen: seq<nat>, handed: map<nat, nat>)

  ghost predicate Init(s: State) {
    && s.currentWorker == 0 && s.owner == None && s.chosen == [] && s.handed == map[]
    && forall c :: c in s.position ==> s.position[c] == Outside
  }

  predicate InCriticalSection(p: Position) {
    p.Locked? || p.Incremented? || p.Wrapped?
  }

  /** What the next step of a caller does to the state. */
  function After(s: State, c: Caller, n: nat): (s': State)
    requires c in s.position
    ensures c in s'.position
  {
    match s.position[c]
    case Outside => s.(owner := Some(c), position := s.position[c := Locked])
    case Locked =>
      s.(currentWorker := s.currentWorker + 1,
         position := s.position[c := Incremented(s.currentWorker, |s.chosen|)],
         chosen := s.chosen + [s.currentWorker])
    case Incremented(worker, ticket) =>
      s.(currentWorker := if s.currentWorker >= n then 0 else s.currentWorker,
         position := s.position[c := Wrapped(worker, ticket)])
    case Wrapped(worker, ticket) => s.(owner := None, position := s.position[c := Released(worker, ticket)])
    case Released(worker, ticket) =>
      s.(position := s.position[c := Outside], handed := s.handed[ticket := worker])
  }

  /** A caller takes a step; to enter the critical section it needs the free mutex. */
  predicate Step(s: State, s': State, c: Caller, n: nat) {
    c in s.position && (s.position[c].Outside? ==> s.owner.None?) && s' == After(s, c, n)
  }

  ghost predicate Next(s: State, s': State, n: nat) {
    exists c :: Step(s, s', c, n)
  }

  ghost predicate Run(states: seq<State>, n: nat) {
    && states != [] && Init(states[0])
    && forall k :: 0 <= k < |states| - 1 ==> Next(states[k], states[k + 1], n)
  }

  /** The value of the cursor, given how many workers have been chosen. */
  ghost predicate CursorFits(s: State, n: nat)
    requires n > 0
  {
    var k := |s.chosen|;
    if s.owner.Some? && s.owner.value in s.position && s.position[s.owner.value].Incremented?
    then k > 0 && s.currentWorker == (k - 1) % n + 1
    else s.currentWorker == k % n
  }

  /** The call that a caller is in the middle of. */
  function Pending(p: Position): Option<nat> {
    if p.Incremented? || p.Wrapped? || p.Released? then Some(p.ticket) else None
  }

  /** The workers are chosen in turn, and work goes to the worker that was chosen. */
  ghost predicate InTurn(s: State, n: nat)
    requires n > 0
  {
    && (forall k :: 0 <= k < |s.chosen| ==> s.chosen[k] == k % n)
    && (forall t :: t in s.handed ==> t < |s.chosen| && s.handed[t] == s.chosen[t])
  }

  /** The owner of the mutex is the one caller in the critical section. */
  ghost predicate MutexHolds(s: State) {
    && (s.owner.Some? ==> s.owner.value in s.position)
    && (forall c :: c in s.position ==> (InCriticalSection(s.position[c]) <==> s.owner == Some(c)))
  }

  ghost predicate Inv(s: State, n: nat)
    requires n > 0
  {
    && CursorFits(s, n)
    && MutexHolds(s)
    && InTurn(s, n)
    && HoldsItsChoice(s) && DifferentCalls(s) && NoCallIsLost(s)
  }

  /** A caller in the middle of a call holds the index chosen for it, and has not handed
      over its work. */
  ghost predicate HoldsItsChoice(s: State) {
    forall c {:trigger s.position[c]} :: c in s.position && Pending(s.position[c]).Some? ==>
      var p := s.position[c]; p.ticket < |s.chosen| && p.worker == s.chosen[p.ticket] && p.ticket !in s.handed
  }

  /** No two callers are in the middle of the same call. */
  ghost predicate DifferentCalls(s: State) {
    forall c, d {:trigger s.position[c], s.position[d]} ::
      c in s.position && d in s.position && c != d && Pending(s.position[c]).Some? ==>
        Pending(s.position[c]) != Pending(s.position[d])
  }

  /** Every call is in progress or has handed over its work. */
  ghost predicate NoCallIsLost(s: State) {
    forall t :: 0 <= t < |s.chosen| && t !in s.handed ==> InProgress(s, t)
  }

  ghost predicate InProgress(s: State, t: nat) {
    exists c :: c in s.position && Pending(s.position[c]) == Some(t)
  }

  lemma InitInv(s: State, n: nat)
    requires n > 0 && Init(s)
    ensures Inv(s, n)
  {
  }

  lemma CursorStaysFit(s: State, s': State, c: Caller, n: nat)
    requires n > 0 && Inv(s, n) && Step(s, s', c, n)
    ensures CursorFits(s', n)
    ensures s.position[c].Locked? ==> s.currentWorker == |s.chosen| % n
  {
    if s.position[c].Incremented? {
      DivModStep(|s.chosen| - 1, n);
    }
  }

  lemma ChoiceStaysHeld(s: State, s': State, c: Caller, n: nat)
    requires n > 0 && Inv(s, n) && Step(s, s', c, n)
    ensures HoldsItsChoice(s')
  {
  }

  lemma CallsStayDifferent(s: State, s': State, c: Caller, n: nat)
    requires n > 0 && Inv(s, n) && Step(s, s', c, n)
    ensures DifferentCalls(s')
  {
  }

  lemma NoCallGetsLost(s: State, s': State, c: Caller, n: nat)
    requires n > 0 && Inv(s, n) && Step(s, s', c, n)
    ensures NoCallIsLost(s')
  {
    forall t | 0 <= t < |s'.chosen| && t !in s'.handed
      ensures InProgress(s', t)
    {
      if t < |s.chosen| {
        assert InProgress(s, t);
        var d :| d in s.position && Pending(s.position[d]) == Some(t);
        assert Pending(s'.position[d]) == Some(t);
      } else {
        assert Pending(s'.position[c]) == Some(t);
      }
    }
  }

  lemma MutexStaysHeld(s: State, s': State, c: Caller, n: nat)
    requires n > 0 && Inv(s, n) && Step(s, s', c, n)
    ensures MutexHolds(s')
  {
  }

  lemma TurnsStayInOrder(s: State, s': State, c: Caller, n: nat)
    requires n > 0 && Inv(s, n) && Step(s, s', c, n)
    ensures InTurn(s', n)
  {
    CursorStaysFit(s, s', c, n);
  }

  lemma StepKeepsInv(s: State, s': State, c: Caller, n: nat)
    requires n > 0 && Inv(s, n) && Step(s, s', c, n)
    ensures Inv(s', n)
  {
    MutexStaysHeld(s, s', c, n);
    TurnsStayInOrder(s, s', c, n);
    CursorStaysFit(s, s', c, n);
    ChoiceStaysHeld(s, s', c, n);
    CallsStayDifferent(s, s', c, n);
    NoCallGetsLost(s, s', c, n);
  }

  lemma NextKeepsInv(s: State, s': State, n: nat)
    requires n > 0 && Inv(s, n) && Next(s, s', n)
    ensures Inv(s', n)
  {
    var c :| Step(s, s', c, n);
    StepKeepsInv(s, s', c, n);
  }

  lemma RunStep(states: seq<State>, n: nat, k: nat)
    requires Run(states, n) && 0 < k < |states|
    ensures Next(states[k - 1], states[k], n)
  {
    assert Next(states[k - 1], states[k - 1 + 1], n);
  }

  lemma {:induction false} RunKeepsInv(states: seq<State>, n: nat, k: nat)
    requires n > 0 && Run(states, n) && k < |states|
    ensures Inv(states[k], n)
  {
    if k == 0 {
      InitInv(states[0], n);
    } else {
      RunKeepsInv(states, n, k - 1);
      RunStep(states, n, k);
      NextKeepsInv(states[k - 1], states[k], n);
    }
  }

  function Occurrences(chosen: seq<nat>, w: nat): nat {
    if chosen == [] then 0
    else Occurrences(chosen[..|chosen| - 1], w) + if chosen[|chosen| - 1] == w then 1 else 0
  }

  lemma {:induction false} OccurrencesInTurn(chosen: seq<nat>, n: nat, w: nat)
    requires n > 0 && forall k :: 0 <= k < |chosen| ==> chosen[k] == k % n
    ensures Occurrences(chosen, w) == CountResidue(|chosen|, n, w)
  {
    if chosen != [] {
      OccurrencesInTurn(chosen[..|chosen| - 1], n, w);
    }
  }

  /** In every state of every run: the cursor is below the number of workers unless the
      mutex is held, at most one caller is in the critical section, and every index that a
      caller holds or handed over is that of a worker. */
  lemma IndicesInRange(states: seq<State>, n: nat, k: nat)
    requires n > 0 && Run(states, n) && k < |states|
    ensures var s := states[k];
            && (s.owner.None? ==> s.currentWorker < n)
            && (forall c, d :: c in s.position && d in s.position ==>
                  InCriticalSection(s.position[c]) && InCriticalSection(s.position[d]) ==> c == d)
            && (forall c :: c in s.position && Pending(s.position[c]).Some? ==> s.position[c].worker < n)
            && (forall t :: t in s.handed ==> s.handed[t] < n)
  {
    RunKeepsInv(states, n, k);
  }

  /** In every state of every run, after `m` critical sections: each worker has been chosen
      m / n times rounded down or up, the first m % n workers once more than the others; no
      call is lost or handed over twice. */
  lemma WorkIsSharedEvenly(states: seq<State>, n: nat, k: nat, w: nat)
    requires n > 0 && Run(states, n) && k < |states| && w < n
    ensures var s := states[k];
            var m := |s.chosen|;
            && Occurrences(s.chosen, w) == m / n + (if w < m % n then 1 else 0)
            && (forall t :: 0 <= t < m ==> (t in s.handed <==> !InProgress(s, t)))
            && (forall t :: t in s.handed ==> t < m && s.handed[t] == t % n)
  {
    RunKeepsInv(states, n, k);
    OccurrencesInTurn(states[k].chosen, n, w);
    CountResidueFormula(|states[k].chosen|, n, w);
  }

  lemma ChoosingAlone(s: State, c: Caller, n: nat)
    requires n > 0 && s.owner.None? && c in s.position && s.position[c].Outside?
    ensures var worker, ticket := s.currentWorker, |s.chosen|;
            After(After(s, c, n), c, n)
            == State(worker + 1, Some(c), s.position[c := Incremented(worker, ticket)], s.chosen + [worker], s.handed)
  {
    assert s.position[c := Locked][c := Incremented(s.currentWorker, |s.chosen|)]
        == s.position[c := Incremented(s.currentWorker, |s.chosen|)];
  }

  lemma HandingOverAlone(s: State, c: Caller, n: nat, worker: nat, ticket: nat)
    requires n > 0 && c in s.position && s.position[c] == Incremented(worker, ticket)
    ensures After(After(After(s, c, n), c, n), c, n)
            == State(if s.currentWorker >= n then 0 else s.currentWorker, None, s.position[c := Outside], s.chosen,
                     s.handed[ticket := worker])
  {
    var s1 := After(s, c, n);
    assert s1.position[c := Released(worker, ticket)] == s.position[c := Released(worker, ticket)];
    var s2 := After(s1, c, n);
    assert s2.position[c := Outside] == s.position[c := Outside];
  }

  /** The calls that handed over their work to worker `w`. */
  ghost function HandedTo(s: State, w: nat): set<nat> {
    set t | t in s.handed && s.handed[t] == w
  }

  lemma HandedToWorker(s: State, after: State, worker: nat, k: nat)
    requires |s.chosen| !in s.handed && after.handed == s.handed[|s.chosen| := worker]
    ensures HandedTo(after, k) == HandedTo(s, k) + if k == worker then {|s.chosen|} else {}
    ensures |HandedTo(after, k)| == |HandedTo(s, k)| + if k == worker then 1 else 0
  {
    var before, now := HandedTo(s, k), HandedTo(after, k);
    if k == worker {
      assert now == before + {|s.chosen|};
    } else {
      assert now == before;
    }
  }

  lemma HandedToOneMore(s: State, after: State, worker: nat, n: nat)
    requires |s.chosen| !in s.handed && after.handed == s.handed[|s.chosen| := worker]
    ensures forall k :: 0 <= k < n ==> |HandedTo(after, k)| == |HandedTo(s, k)| + if k == worker then 1 else 0
  {
    forall k | 0 <= k < n
      ensures |HandedTo(after, k)| == |HandedTo(s, k)| + if k == worker then 1 else 0
    {
      HandedToWorker(s, after, worker, k);
    }
  }

  /** The state after `k` steps of one caller in a row. */
  ghost function Alone(s: State, c: Caller, n: nat, k: nat): (s': State)
    requires c in s.position
    ensures c in s'.position
  {
    if k == 0 then s else After(Alone(s, c, n, k - 1), c, n)
  }

  lemma AloneIsFiveSteps(s: State, s1: State, s2: State, s3: State, s4: State, s5: State, c: Caller, n: nat)
    requires c in s.position && s1 == After(s, c, n) && s2 == After(s1, c, n)
    requires s3 == After(s2, c, n) && s4 == After(s3, c, n) && s5 == After(s4, c, n)
    ensures s2 == Alone(s, c, n, 2) && s5 == Alone(s, c, n, 5)
  {
    assert Alone(s, c, n, 0) == s;
    assert Alone(s, c, n, 1) == s1;
    assert Alone(s, c, n, 2) == s2;
    assert Alone(s, c, n, 3) == s3;
    assert Alone(s, c, n, 4) == s4;
  }

  /** What five steps of a caller do that nobody interleaves with. */
  lemma AloneItIsAddWork(s: State, c: Caller, n: nat)
    requires s.currentWorker < n && s.owner.None? && c in s.position && s.position[c].Outside?
    ensures var worker := s.currentWorker;
            var next := if worker + 1 == n then 0 else worker + 1;
            Alone(s, c, n, 5) == State(next, None, s.position, s.chosen + [worker], s.handed[|s.chosen| := worker])
  {
    var s1 := After(s, c, n);
    var s2 := After(s1, c, n);
    var s3 := After(s2, c, n);
    var s4 := After(s3, c, n);
    AloneIsFiveSteps(s, s1, s2, s3, s4, After(s4, c, n), c, n);
    ChoosingAlone(s, c, n);
    HandingOverAlone(s2, c, n, s.currentWorker, |s.chosen|);
    assert s2.position[c := Outside] == s.position;
  }
}
