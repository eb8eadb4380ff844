/** The retry store: candidates awaiting a second validation pass, keyed by
    contract address, and the periodic sweep that expires or re-checks them. */
module Retry {
  import opened Wrappers
  import opened Feed

  /** How long an entry may wait for resolution: one hour, in milliseconds. */
  const RetryWindowMs: int := 60 * 60 * 1000

  /** A stored entry: the candidate's own fields, the time it was queued and,
      once the first message went out, that message's id. */
  datatype Entry = Entry(candidate: Candidate, addedAt: int, messageId: Option<int>)

  /** The `/tokens` object of the database: path segment to entry. */
  type Store = map<string, Entry>

  /** An entry is expired strictly after the retry window has elapsed. */
  predicate Expired(e: Entry, now: int) {
    now - e.addedAt > RetryWindowMs
  }

  /** Every entry sits under its own candidate's contract address. */
  ghost predicate WellKeyed(store: Store) {
    forall k :: k in store ==> store[k].candidate.contractAddress == k
  }

  /** Every entry records the (non-zero) id of a message already sent. */
  ghost predicate AllPublished(store: Store) {
    forall k :: k in store ==> store[k].messageId.Some? && store[k].messageId.value != 0
  }

  predicate Distinct(s: seq<string>) {
    forall i, j :: 0 <= i < j < |s| ==> s[i] != s[j]
  }

  /** A sequence without repeats has as many elements as the set of them. */
  lemma {:induction false} DistinctCount(s: seq<string>)
    requires Distinct(s)
    ensures |set k | k in s| == |s|
  {
    if s != [] {
      var rest := set k | k in s[1..];
      DistinctCount(s[1..]);
      assert (set k | k in s) == {s[0]} + rest;
      assert s[0] !in rest by {
        forall j | 0 <= j < |s[1..]| ensures s[1..][j] != s[0] {
          assert s[1..][j] == s[j + 1];
        }
      }
    }
  }

  /** `order` lists every key of `store` exactly once, as `Object.keys` does. */
  predicate Enumerates(order: seq<string>, store: Store) {
    && Distinct(order)
    && (forall k :: k in order ==> k in store)
    && (forall k :: k in store ==> k in order)
  }

  /** The sweep's outcome: the store afterwards and, in visiting order, the
      keys whose entries are handed back for a check with `firstTry = false`. */
  datatype Swept = Swept(store: Store, due: seq<string>)

  /** The addresses the sweep deletes: the source deletes under the expired
      entry's own contract address, not under the key it was read from. */
  ghost function Evicted(snapshot: Store, keys: seq<string>, now: int): set<string> {
    set k | k in keys && k in snapshot && Expired(snapshot[k], now) :: snapshot[k].candidate.contractAddress
  }

  /** The loop body of the sweep over `keys`: entries are read from the
      snapshot taken before the loop, deletions go to the `live` store. */
  function SweepKeys(snapshot: Store, keys: seq<string>, now: int, live: Store): (r: Swept)
    requires forall k :: k in keys ==> k in snapshot
    ensures r.store == live - Evicted(snapshot, keys, now)
    ensures forall k :: k in r.due <==> k in keys && !Expired(snapshot[k], now)
    ensures Distinct(keys) ==> Distinct(r.due)
    decreases |keys|
  {
    if keys == [] then Swept(live, [])
    else
      var e := snapshot[keys[0]];
      assert Evicted(snapshot, keys, now) ==
        (if Expired(e, now) then {e.candidate.contractAddress} else {}) + Evicted(snapshot, keys[1..], now);
      if Expired(e, now) then
        SweepKeys(snapshot, keys[1..], now, live - {e.candidate.contractAddress})
      else
        var rest := SweepKeys(snapshot, keys[1..], now, live);
        Swept(rest.store, [keys[0]] + rest.due)
  }

  /** Under well-keyedness the deleted addresses are exactly the expired keys. */
  lemma EvictedAreExpiredKeys(store: Store, order: seq<string>, now: int)
    requires forall k :: k in order <==> k in store
    ensures WellKeyed(store) ==>
      forall k :: k in Evicted(store, order, now) <==> k in store && Expired(store[k], now)
  {
    forall k | WellKeyed(store) && k in store && Expired(store[k], now)
      ensures k in Evicted(store, order, now)
    {
      assert store[k].candidate.contractAddress == k;
    }
  }

  /** One run of the sweep interval callback over the store, visiting keys in
      `order`. Entries queued more than an hour ago are deleted and get no
      check; every other entry gets exactly one check and stays unchanged. */
  function Sweep(store: Store, order: seq<string>, now: int): (r: Swept)
    requires Enumerates(order, store)
    ensures forall k :: k in r.due <==> k in store && !Expired(store[k], now)
    ensures Distinct(r.due)
    ensures forall k :: k in r.store ==> k in store && r.store[k] == store[k]
    ensures WellKeyed(store) ==>
      forall k :: k in r.store <==> k in store && !Expired(store[k], now)
    ensures WellKeyed(store) ==> WellKeyed(r.store)
    ensures AllPublished(store) ==> AllPublished(r.store)
  {
    EvictedAreExpiredKeys(store, order, now);
    SweepKeys(store, order, now, store)
  }
}
