/**
 * `InMemoryMessageStore` of src/storage.rs: a bounded FIFO of stored entries
 * that evicts from the head after each append and then publishes the new
 * entry's response to subscribers. The broadcaster is modelled by the ghost
 * log of the responses it was handed.
 */
module Storage {
  import opened Wrappers
  import opened Utf8
  import opened Gelf

  /** What the `while len > max_size { pop_front }` loop leaves of `s`. */
  function Evict(s: seq<StoredMessage>, maxSize: nat): seq<StoredMessage>
    decreases |s|
  {
    if |s| > maxSize then Evict(s[1..], maxSize) else s
  }

  /** Eviction keeps exactly the newest `min(|s|, maxSize)` entries, in order. */
  lemma {:induction false} EvictKeepsNewest(s: seq<StoredMessage>, maxSize: nat)
    ensures Evict(s, maxSize) == s[|s| - Min(|s|, maxSize)..]
    decreases |s|
  {
    if |s| > maxSize {
      var tail := s[1..];
      assert Evict(s, maxSize) == Evict(tail, maxSize);
      EvictKeepsNewest(tail, maxSize);
      assert Min(|tail|, maxSize) == maxSize && Min(|s|, maxSize) == maxSize;
      assert tail[|tail| - maxSize..] == s[|s| - maxSize..];
    }
  }

  /** Eviction never leaves more than `maxSize` entries, and never fewer than it can. */
  lemma EvictLength(s: seq<StoredMessage>, maxSize: nat)
    ensures |Evict(s, maxSize)| == Min(|s|, maxSize)
    ensures |Evict(s, maxSize)| <= maxSize
  {
    EvictKeepsNewest(s, maxSize);
  }

  /** Below capacity nothing is evicted. */
  lemma EvictBelowCapacity(s: seq<StoredMessage>, maxSize: nat)
    requires |s| <= maxSize
    ensures Evict(s, maxSize) == s
  {
  }

  /** With capacity 0 everything is evicted, the entry just appended included. */
  lemma EvictZeroCapacity(s: seq<StoredMessage>)
    ensures Evict(s, 0) == []
  {
    EvictKeepsNewest(s, 0);
  }

  /**
   * Evicting after every append is the same as evicting once from the whole
   * append history: the store always holds a suffix of that history.
   */
  lemma EvictThenAppend(history: seq<StoredMessage>, m: StoredMessage, maxSize: nat)
    ensures Evict(Evict(history, maxSize) + [m], maxSize) == Evict(history + [m], maxSize)
  {
    var kept := Evict(history, maxSize);
    EvictKeepsNewest(history, maxSize);
    EvictKeepsNewest(kept + [m], maxSize);
    EvictKeepsNewest(history + [m], maxSize);
    var n := Min(|history| + 1, maxSize);
    assert (kept + [m])[|kept| + 1 - n..] == (history + [m])[|history| + 1 - n..];
  }

  /**
   * The responses for the newest `limit` entries of `s`, newest first:
   * `iter().rev().take(limit).map(to_response)`.
   */
  function NewestFirst(s: seq<StoredMessage>, limit: nat): (r: seq<MessageResponse>)
    ensures |r| == Min(limit, |s|)
    ensures forall i :: 0 <= i < |r| ==> r[i] == s[|s| - 1 - i].ToResponse()
    decreases |s|
  {
    if limit == 0 || s == [] then []
    else [s[|s| - 1].ToResponse()] + NewestFirst(s[..|s| - 1], limit - 1)
  }

  /** The JSON object `get_stats` reports, without its floating-point percentage. */
  datatype Stats = Stats(totalMessages: nat, maxCapacity: nat)

  class InMemoryMessageStore {
    /** The retained entries, oldest first (the `VecDeque`). */
    var messages: seq<StoredMessage>
    const maxSize: nat
    /** Every entry ever appended, oldest first. */
    ghost var history: seq<StoredMessage>
    /** Every response handed to the broadcaster, in order. */
    ghost var published: seq<MessageResponse>

    /**
     * The store holds what eviction leaves of the append history, and one
     * response was published per append, in append order.
     */
    ghost predicate Valid()
      reads this
    {
      && messages == Evict(history, maxSize)
      && |published| == |history|
      && forall i :: 0 <= i < |history| ==> published[i] == history[i].ToResponse()
    }

    /** `InMemoryMessageStore::new`. */
    constructor (maxSize: nat)
      ensures Valid()
      ensures this.maxSize == maxSize
      ensures messages == [] && history == [] && published == []
    {
      this.maxSize := maxSize;
      messages := [];
      history := [];
      published := [];
    }

    /**
     * `add_message`: build the entry, append it, evict from the head while
     * over capacity, then publish its response. A publish with no subscriber
     * fails; the failure is ignored and the append stands.
     */
    method AddMessage(gelfMessage: GelfMessage, rawMessage: Str, now: F64)
      requires Valid()
      modifies this
      ensures Valid()
      ensures history == old(history) + [NewStoredMessage(gelfMessage, rawMessage, now)]
      ensures messages == Evict(old(messages) + [NewStoredMessage(gelfMessage, rawMessage, now)], maxSize)
      ensures published == old(published) + [NewStoredMessage(gelfMessage, rawMessage, now).ToResponse()]
    {
      var storedMessage := NewStoredMessage(gelfMessage, rawMessage, now);
      var response := storedMessage.ToResponse();
      messages := messages + [storedMessage];
      while |messages| > maxSize
        invariant Evict(messages, maxSize) == Evict(old(messages) + [storedMessage], maxSize)
        invariant history == old(history) && published == old(published)
        decreases |messages|
      {
        messages := messages[1..];
      }
      EvictThenAppend(history, storedMessage, maxSize);
      history := history + [storedMessage];
      published := published + [response];
    }

    /**
     * `get_messages`: the responses of the newest `limit` entries (all of them
     * when `limit` is `None`), newest first.
     */
    function GetMessages(limit: Option<nat>): (r: seq<MessageResponse>)
      reads this
      ensures |r| == Min(limit.GetOr(|messages|), |messages|)
      ensures forall i :: 0 <= i < |r| ==> r[i] == messages[|messages| - 1 - i].ToResponse()
    {
      NewestFirst(messages, limit.GetOr(|messages|))
    }

    /** `get_stats`: the number of entries held and the capacity. */
    function GetStats(): Stats
      reads this
    {
      Stats(|messages|, maxSize)
    }
  }

  // ----- Properties of the store -----

  /** After any sequence of appends, the store holds the newest `min(n, maxSize)` of them. */
  lemma ValidStoreHoldsNewest(store: InMemoryMessageStore)
    requires store.Valid()
    ensures |store.messages| == Min(|store.history|, store.maxSize)
    ensures store.messages == store.history[|store.history| - |store.messages|..]
  {
    EvictKeepsNewest(store.history, store.maxSize);
  }

  /** The reported count never exceeds the reported capacity, and both are exact. */
  lemma StatsWithinCapacity(store: InMemoryMessageStore)
    requires store.Valid()
    ensures store.GetStats().totalMessages == |store.messages|
    ensures store.GetStats().maxCapacity == store.maxSize
    ensures store.GetStats().totalMessages <= store.GetStats().maxCapacity
  {
    EvictLength(store.history, store.maxSize);
  }

  /** A snapshot of three appended entries is those three, newest first. */
  lemma SnapshotNewestFirst(a: StoredMessage, b: StoredMessage, c: StoredMessage)
    ensures NewestFirst([a, b, c], 3) == [c.ToResponse(), b.ToResponse(), a.ToResponse()]
  {
  }

  /** A limit of 0 yields nothing; a limit at or above the length yields everything. */
  lemma SnapshotLimits(s: seq<StoredMessage>, k: nat)
    ensures NewestFirst(s, 0) == []
    ensures k >= |s| ==> NewestFirst(s, k) == NewestFirst(s, |s|)
  {
  }
}
