/** The bot's decision core as a state machine. A state holds the retry store,
    the checks scheduled but not yet run (the pending `setTimeout` callbacks
    and un-awaited sweep calls), and the chat effects issued so far. Each
    transition is one atomic step: a frame arrives, the sweep interval fires,
    or one scheduled check runs. */
module Pipeline {
  import opened Wrappers
  import opened Feed
  import opened Retry
  import opened Orchestrator

  /** Delay between a create frame and its first check, in milliseconds. */
  const CheckDelayMs: int := 60_000

  /** A scheduled run of `checkSendToken(candidate, firstTry)`, due at `dueAt`. */
  datatype Job = Job(candidate: Candidate, firstTry: bool, dueAt: int)

  datatype System = System(store: Store, pending: seq<Job>, outbox: seq<Effect>)

  /** Exceptions that escape a step. */
  datatype Fault = BadFrame(frameError: FrameError) | BadCheck(checkError: CheckError)

  /** The store invariant every step keeps. */
  ghost predicate Inv(sys: System) {
    WellKeyed(sys.store) && AllPublished(sys.store)
  }

  /** A frame arrives (`handleMessage`): a create frame with a candidate
      schedules exactly one first-try check a minute later; nothing else
      changes. There is no set of already-seen addresses. */
  function Receive(sys: System, frame: Frame, now: int): (r: Result<System, Fault>)
    ensures r.Failure? <==> Normalize(frame).Failure?
    ensures r.Success? ==> r.value.store == sys.store && r.value.outbox == sys.outbox
    ensures Normalize(frame) == Success(None) ==> r == Success(sys)
    ensures Normalize(frame).Success? && Normalize(frame).value.Some? ==>
      r.Success? && r.value.pending == sys.pending + [Job(Normalize(frame).value.value, true, now + CheckDelayMs)]
    ensures r.Success? && Inv(sys) ==> Inv(r.value)
  {
    match Normalize(frame)
    case Failure(e) => Failure(BadFrame(e))
    case Success(None) => Success(sys)
    case Success(Some(c)) => Success(sys.(pending := sys.pending + [Job(c, true, now + CheckDelayMs)]))
  }

  /** The checks the sweep hands back, one per due key, in visiting order.
      Given the due keys the sweep computes (each live key once, nothing
      else), the jobs are exactly the retries of the live entries. */
  function RetryJobs(store: Store, keys: seq<string>, now: int): (jobs: seq<Job>)
    requires forall k :: k in keys <==> k in store && !Expired(store[k], now)
    requires Distinct(keys)
    ensures RetriesExactly(store, jobs, now)
  {
    var jobs := seq(|keys|, i requires 0 <= i < |keys| => Job(store[keys[i]].candidate, false, now));
    RetriesOfDueKeys(store, keys, jobs, now);
    jobs
  }

  /** Jobs that retry the due keys one by one, in order, are exactly the
      retries of the live entries. */
  lemma RetriesOfDueKeys(store: Store, keys: seq<string>, jobs: seq<Job>, now: int)
    requires forall k :: k in keys <==> k in store && !Expired(store[k], now)
    requires Distinct(keys)
    requires |jobs| == |keys|
    requires forall i :: 0 <= i < |keys| ==> jobs[i] == Job(store[keys[i]].candidate, false, now)
    ensures RetriesExactly(store, jobs, now)
  {
    forall j | 0 <= j < |jobs| ensures jobs[j].candidate in LiveCandidates(store, now) {
      assert keys[j] in keys;
    }
    forall k | k in store && !Expired(store[k], now)
      ensures exists j :: 0 <= j < |jobs| && jobs[j].candidate == store[k].candidate
    {
      var i :| 0 <= i < |keys| && keys[i] == k;
      assert jobs[i].candidate == store[k].candidate;
    }
    forall j1, j2 | WellKeyed(store) && 0 <= j1 < j2 < |jobs|
      ensures jobs[j1].candidate.contractAddress != jobs[j2].candidate.contractAddress
    {
      assert keys[j1] in keys && keys[j2] in keys;
    }
    DueKeysCount(store, keys, now);
  }

  /** The due keys, listed without repeats, are as many as the live entries. */
  lemma DueKeysCount(store: Store, keys: seq<string>, now: int)
    requires forall k :: k in keys <==> k in store && !Expired(store[k], now)
    requires Distinct(keys)
    ensures |keys| == |LiveKeys(store, now)|
  {
    DistinctCount(keys);
    assert (set k | k in keys) == LiveKeys(store, now);
  }

  /** The keys of the entries that are not expired at `now`. */
  ghost function LiveKeys(store: Store, now: int): set<string> {
    set k | k in store && !Expired(store[k], now)
  }

  /** The candidates of the entries that are not expired at `now`. */
  ghost function LiveCandidates(store: Store, now: int): set<Candidate> {
    set k | k in store && !Expired(store[k], now) :: store[k].candidate
  }

  /** `jobs` holds one retry check, due at `now`, per entry of `store` that is
      not expired, and nothing else: as many jobs as live entries, every live
      entry's candidate among them and no other candidate. In a well-keyed
      store no two jobs share an address, so each live entry has exactly one. */
  ghost predicate RetriesExactly(store: Store, jobs: seq<Job>, now: int) {
    && |jobs| == |LiveKeys(store, now)|
    && (forall j :: 0 <= j < |jobs| ==> !jobs[j].firstTry && jobs[j].dueAt == now)
    && (forall j :: 0 <= j < |jobs| ==> jobs[j].candidate in LiveCandidates(store, now))
    && (forall k :: k in store && !Expired(store[k], now) ==>
         exists j :: 0 <= j < |jobs| && jobs[j].candidate == store[k].candidate)
    && (WellKeyed(store) ==>
         forall j1, j2 :: 0 <= j1 < j2 < |jobs| ==>
           jobs[j1].candidate.contractAddress != jobs[j2].candidate.contractAddress)
  }

  /** The sweep interval fires at `now`, visiting the keys in `order`. Expired
      entries leave the store and get no check; every other entry gets exactly
      one retry check; no effect is issued. */
  function Tick(sys: System, order: seq<string>, now: int): (r: System)
    requires Enumerates(order, sys.store)
    ensures r.outbox == sys.outbox
    ensures |r.pending| >= |sys.pending| && r.pending[..|sys.pending|] == sys.pending
    ensures RetriesExactly(sys.store, r.pending[|sys.pending|..], now)
    ensures forall k :: k in r.store ==> k in sys.store && r.store[k] == sys.store[k]
    ensures Inv(sys) ==>
      forall k :: k in r.store <==> k in sys.store && !Expired(sys.store[k], now)
    ensures Inv(sys) ==> Inv(r)
  {
    var swept := Sweep(sys.store, order, now);
    var jobs := RetryJobs(sys.store, swept.due, now);
    assert (sys.pending + jobs)[|sys.pending|..] == jobs;
    System(swept.store, sys.pending + jobs, sys.outbox)
  }

  /** The due check `sys.pending[i]` runs at `now`: it leaves the pending set
      and the effects of the check are appended to the outbox. */
  function Fire(sys: System, i: int, verdict: Verdict, now: int, sentId: int): (r: Result<System, Fault>)
    requires 0 <= i < |sys.pending| && sys.pending[i].dueAt <= now
    ensures var job := sys.pending[i];
      var step := Check(sys.store, job.candidate, job.firstTry, verdict, now, sentId);
      && (r.Failure? <==> step.Failure?)
      && (r.Success? ==>
        && r.value.store == step.value.store
        && r.value.outbox == sys.outbox + step.value.effects)
    ensures r.Success? ==> r.value.pending == sys.pending[..i] + sys.pending[i + 1..]
    ensures r.Success? && Inv(sys) && sentId != 0 ==> Inv(r.value)
  {
    var job := sys.pending[i];
    match Check(sys.store, job.candidate, job.firstTry, verdict, now, sentId)
    case Failure(e) => Failure(BadCheck(e))
    case Success(step) =>
      Success(System(step.store, sys.pending[..i] + sys.pending[i + 1..], sys.outbox + step.effects))
  }

  /** A live entry's retry is among the jobs the sweep schedules; `j` is its
      position in the pending sequence. */
  lemma SweepSchedulesRetryOf(sys: System, order: seq<string>, tick: int, a: string)
    returns (j: int)
    requires Enumerates(order, sys.store)
    requires a in sys.store && !Expired(sys.store[a], tick)
    ensures var swept := Tick(sys, order, tick);
      && |sys.pending| <= j < |swept.pending|
      && swept.pending[j] == Job(sys.store[a].candidate, false, tick)
  {
    var swept := Tick(sys, order, tick);
    var retries := swept.pending[|sys.pending|..];
    assert RetriesExactly(sys.store, retries, tick);
    var f :| 0 <= f < |retries| && retries[f].candidate == sys.store[a].candidate;
    j := |sys.pending| + f;
    assert swept.pending[j] == retries[f];
  }

  /** A retry of a well-keyed, published entry that sees a full validation
      replies to and edits the stored message and removes the entry. */
  lemma ResolvingRetryEditsStoredMessage(sys: System, j: int, a: string, s: Statistics, now: int, sentId: int)
    requires Inv(sys) && a in sys.store
    requires 0 <= j < |sys.pending| && sys.pending[j].dueAt <= now && !sys.pending[j].firstTry
    requires s.isValidated && s.contractAddress == a
    ensures var id := sys.store[a].messageId.value;
      var r := Fire(sys, j, Some(s), now, sentId);
      && r.Success?
      && r.value.outbox == sys.outbox + [Reply(Some(id), LiquidityOf(s)), Edit(id)]
      && a !in r.value.store
  {
    var job := sys.pending[j];
    ResolutionNeverSendsFresh(sys.store, job.candidate, s, now, sentId);
    ResolutionDeletesLookedUpKey(sys.store, job.candidate, s, now, sentId);
  }

  /** A queued address that is still within the window is resolved through
      the sweep: the sweep schedules its retry (at position `j`), and a full
      validation of that retry replies to and edits the message sent on the
      first try, never sending a second one, and removes the address. */
  lemma SweepThenFullValidationEditsQueuedMessage(
    sys: System, order: seq<string>, tick: int, a: string, s: Statistics, now: int, sentId: int)
    returns (j: int)
    requires Inv(sys) && Enumerates(order, sys.store)
    requires a in sys.store && !Expired(sys.store[a], tick)
    requires s.isValidated && s.contractAddress == a && tick <= now
    ensures var swept := Tick(sys, order, tick);
      var id := sys.store[a].messageId.value;
      && |sys.pending| <= j < |swept.pending|
      && swept.pending[j] == Job(sys.store[a].candidate, false, tick)
      && var r := Fire(swept, j, Some(s), now, sentId);
      && r.Success?
      && r.value.outbox == sys.outbox + [Reply(Some(id), LiquidityOf(s)), Edit(id)]
      && a !in r.value.store
  {
    j := SweepSchedulesRetryOf(sys, order, tick, a);
    var swept := Tick(sys, order, tick);
    assert a in swept.store && swept.store[a] == sys.store[a];
    ResolvingRetryEditsStoredMessage(swept, j, a, s, now, sentId);
  }

  /** An entry queued more than an hour before the sweep is removed silently:
      no check is scheduled for its address and no effect is issued. */
  lemma ExpiredEntryIsDroppedSilently(sys: System, order: seq<string>, now: int, a: string)
    requires Inv(sys) && Enumerates(order, sys.store)
    requires a in sys.store && Expired(sys.store[a], now)
    ensures var r := Tick(sys, order, now);
      && a !in r.store
      && r.outbox == sys.outbox
      && forall j :: |sys.pending| <= j < |r.pending| ==> r.pending[j].candidate.contractAddress != a
  {
  }

  /** Two create frames for the same pool are both checked: nothing filters
      an address that was already seen. */
  lemma RepeatedCreateFramesAreCheckedTwice(sys: System, frame: Frame, t0: int, t1: int)
    requires Normalize(frame).Success? && Normalize(frame).value.Some?
    ensures var c := Normalize(frame).value.value;
      var r1 := Receive(sys, frame, t0);
      && r1.Success?
      && var r2 := Receive(r1.value, frame, t1);
      && r2.Success?
      && r2.value.pending == sys.pending + [Job(c, true, t0 + CheckDelayMs), Job(c, true, t1 + CheckDelayMs)]
  {
  }

  /** A sweep over a store holding one live entry keeps the entry and
      schedules exactly its retry. */
  lemma SweepOfOneLiveEntry(e: Entry, a: string, pending: seq<Job>, out: seq<Effect>, now: int)
    requires !Expired(e, now)
    ensures Tick(System(map[a := e], pending, out), [a], now)
         == System(map[a := e], pending + [Job(e.candidate, false, now)], out)
  {
    var store := map[a := e];
    assert SweepKeys(store, [], now, store) == Swept(store, []);
    assert SweepKeys(store, [a], now, store) == Swept(store, [a]);
    assert RetryJobs(store, [a], now) == [Job(e.candidate, false, now)];
  }

  /** The sweep does not wait for the checks it schedules, so a second sweep
      can schedule another retry of an address before the first has run. If
      both retries see a full validation, the first resolves the entry and the
      second reads an entry that is gone, which throws. */
  lemma OverlappingSweepsReachMissingEntry(
    e: Entry, a: string, out: seq<Effect>, t1: int, t2: int, s: Statistics, id1: int, id2: int)
    returns (resolved: System)
    requires e.candidate.contractAddress == a
    requires t1 <= t2 && !Expired(e, t1) && !Expired(e, t2)
    requires s.isValidated && s.contractAddress == a
    ensures var twice := Tick(Tick(System(map[a := e], [], out), [a], t1), [a], t2);
      && twice.pending == [Job(e.candidate, false, t1), Job(e.candidate, false, t2)]
      && Fire(twice, 0, Some(s), t2, id1) == Success(resolved)
      && resolved.pending == [Job(e.candidate, false, t2)]
      && Fire(resolved, 0, Some(s), t2, id2) == Failure(BadCheck(MissingRetryEntry(a)))
  {
    SweepOfOneLiveEntry(e, a, [], out, t1);
    var once := Tick(System(map[a := e], [], out), [a], t1);
    SweepOfOneLiveEntry(e, a, once.pending, out, t2);
    var twice := Tick(once, [a], t2);
    assert twice == System(map[a := e], [Job(e.candidate, false, t1), Job(e.candidate, false, t2)], out);
    resolved := SecondResolutionThrows(e, a, out, t1, t2, s, id1, id2);
  }

  /** The two queued retries of `OverlappingSweepsReachMissingEntry`: the
      first resolves the entry, the second finds it gone. */
  lemma SecondResolutionThrows(
    e: Entry, a: string, out: seq<Effect>, t1: int, t2: int, s: Statistics, id1: int, id2: int)
    returns (resolved: System)
    requires e.candidate.contractAddress == a && t1 <= t2
    requires s.isValidated && s.contractAddress == a
    ensures var twice := System(map[a := e], [Job(e.candidate, false, t1), Job(e.candidate, false, t2)], out);
      && Fire(twice, 0, Some(s), t2, id1) == Success(resolved)
      && resolved.pending == [Job(e.candidate, false, t2)]
      && Fire(resolved, 0, Some(s), t2, id2) == Failure(BadCheck(MissingRetryEntry(a)))
  {
    var twice := System(map[a := e], [Job(e.candidate, false, t1), Job(e.candidate, false, t2)], out);
    assert map[a := e] - {a} == map[];
    resolved := Fire(twice, 0, Some(s), t2, id1).value;
    assert resolved.store == map[];
  }
}
