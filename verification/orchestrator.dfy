/** The validation step of `checkSendToken`: from the oracle's verdict and the
    `firstTry` flag to the outbound message effects and the retry-store change.
    The oracle's answer, the clock and the id the messaging API returns for a
    fresh send are all inputs. */
module Orchestrator {
  import opened Wrappers
  import opened Feed
  import opened Retry

  /** The flags of the oracle's token statistics that steer the decision.
      `contractAddress` is the address the oracle echoes back; the resolution
      path reads the retry store under it. */
  datatype Statistics = Statistics(
    contractAddress: string,
    isValidated: bool,
    isPartiallyValidated: bool,
    isLocked: bool)

  /** `None` when the oracle call rejected or resolved to nothing. */
  type Verdict = Option<Statistics>

  /** What the follow-up reply announces about the pool's liquidity. */
  datatype Liquidity = Locked | Burnt

  /** Abstract effects on the chat: a fresh statistics message, an edit of a
      stored message, and a liquidity reply to a (possibly absent) message id. */
  datatype Effect =
    | Send
    | Edit(messageId: int)
    | Reply(replyTo: Option<int>, news: Liquidity)

  /** A completed check: the store afterwards and the effects, in issue order. */
  datatype Step = Step(store: Store, effects: seq<Effect>)

  /** Reading an absent path from the database throws. */
  datatype CheckError = MissingRetryEntry(key: string)

  /** A statistics message goes out. */
  predicate Publishes(s: Statistics, firstTry: bool) {
    s.isValidated || (s.isPartiallyValidated && firstTry)
  }

  /** The candidate is put into the retry store. */
  predicate Queues(s: Statistics, firstTry: bool) {
    s.isPartiallyValidated && firstTry
  }

  /** A queued candidate is resolved: reply, delete, edit. */
  predicate Resolves(s: Statistics, firstTry: bool) {
    s.isValidated && !firstTry
  }

  /** JavaScript truthiness of a stored message id. */
  predicate Truthy(id: Option<int>) {
    id.Some? && id.value != 0
  }

  function LiquidityOf(s: Statistics): Liquidity {
    if s.isLocked then Locked else Burnt
  }

  /** One run of `checkSendToken(c, firstTry)`, taken as one atomic step at
      time `now`; `sentId` is the id a fresh send comes back with. */
  function Check(store: Store, c: Candidate, firstTry: bool, verdict: Verdict, now: int, sentId: int)
    : (r: Result<Step, CheckError>)
    // an oracle failure, or a verdict that does not publish, changes nothing
    ensures verdict.None? ==> r == Success(Step(store, []))
    ensures verdict.Some? && !Publishes(verdict.value, firstTry) ==> r == Success(Step(store, []))
    // a message is produced exactly when the verdict publishes
    ensures r.Success? ==> (r.value.effects != [] <==> verdict.Some? && Publishes(verdict.value, firstTry))
    // the only error: resolving an address the store does not hold
    ensures r.Failure? <==>
      verdict.Some? && Resolves(verdict.value, firstTry) && verdict.value.contractAddress !in store
    // a first try never edits and never replies
    ensures r.Success? && firstTry ==> forall i :: 0 <= i < |r.value.effects| ==> r.value.effects[i] == Send
    // queueing: one fresh send, and the entry records `now` and the sent id
    ensures verdict.Some? && Queues(verdict.value, firstTry) ==>
      && r.Success?
      && r.value.effects == [Send]
      && r.value.store.Keys == store.Keys + {c.contractAddress}
      && r.value.store[c.contractAddress] == Entry(c, now, Some(sentId))
      && forall k :: k in store && k != c.contractAddress ==> r.value.store[k] == store[k]
    // full validation on a first try, not partial: one fresh send, store untouched
    ensures verdict.Some? && verdict.value.isValidated && firstTry && !verdict.value.isPartiallyValidated ==>
      r == Success(Step(store, [Send]))
    // resolution: one liquidity reply to the stored message, the entry is
    // deleted, and the main message edits the stored message when it has one
    ensures verdict.Some? && Resolves(verdict.value, firstTry) && verdict.value.contractAddress in store ==>
      var e := store[verdict.value.contractAddress];
      && r.Success?
      && r.value.store == store - {e.candidate.contractAddress}
      && |r.value.effects| == 2
      && r.value.effects[0] == Reply(e.messageId, LiquidityOf(verdict.value))
      && (Truthy(e.messageId) ==> r.value.effects[1] == Edit(e.messageId.value))
      && (!Truthy(e.messageId) ==> r.value.effects[1] == Send)
    // invariants of the store
    ensures r.Success? && WellKeyed(store) ==> WellKeyed(r.value.store)
    ensures r.Success? && AllPublished(store) && sentId != 0 ==> AllPublished(r.value.store)
  {
    match verdict
    case None => Success(Step(store, []))
    case Some(s) =>
      if !Publishes(s, firstTry) then Success(Step(store, []))
      else
        // the entry is put before the send, without a message id
        var queued := if Queues(s, firstTry) then store[c.contractAddress := Entry(c, now, None)] else store;
        if Resolves(s, firstTry) then
          if s.contractAddress !in queued then Failure(MissingRetryEntry(s.contractAddress))
          else
            var e := queued[s.contractAddress];
            var reply := Reply(e.messageId, LiquidityOf(s));
            var main := if Truthy(e.messageId) then Edit(e.messageId.value) else Send;
            Success(Step(queued - {e.candidate.contractAddress}, [reply, main]))
        else
          // no previous message id on this path: always a fresh send
          var published := if Queues(s, firstTry)
            then queued[c.contractAddress := Entry(c, now, Some(sentId))] else queued;
          Success(Step(published, [Send]))
  }

  /** Under well-keyedness, a resolution deletes the very entry it read. */
  lemma ResolutionDeletesLookedUpKey(store: Store, c: Candidate, s: Statistics, now: int, sentId: int)
    requires WellKeyed(store)
    requires Resolves(s, false) && s.contractAddress in store
    ensures var r := Check(store, c, false, Some(s), now, sentId);
      r.Success? && r.value.store.Keys == store.Keys - {s.contractAddress}
  {
  }

  /** Once every entry records a message id, a resolution never sends a
      second statistics message: it replies to and edits the first one. */
  lemma ResolutionNeverSendsFresh(store: Store, c: Candidate, s: Statistics, now: int, sentId: int)
    requires AllPublished(store)
    requires Resolves(s, false) && s.contractAddress in store
    ensures var r := Check(store, c, false, Some(s), now, sentId);
      var id := store[s.contractAddress].messageId.value;
      r.Success? && r.value.effects == [Reply(Some(id), LiquidityOf(s)), Edit(id)]
  {
  }

  /** The partial-then-full lifecycle on one address: the first try sends one
      message and queues it; a later full validation replies to that message,
      edits it, and leaves the store as it was before the candidate came. */
  lemma PartialThenFullEditsTheSameMessage(
    store: Store, c: Candidate, s1: Statistics, s2: Statistics, t0: int, t1: int, id: int, id2: int)
    requires c.contractAddress !in store
    requires s1.isPartiallyValidated && !s1.isValidated
    requires s2.isValidated && s2.contractAddress == c.contractAddress
    requires id != 0
    ensures var r1 := Check(store, c, true, Some(s1), t0, id);
      && r1.Success?
      && r1.value.effects == [Send]
      && var r2 := Check(r1.value.store, c, false, Some(s2), t1, id2);
      && r2.Success?
      && r2.value.effects == [Reply(Some(id), LiquidityOf(s2)), Edit(id)]
      && r2.value.store == store
  {
  }
}
