/**
 * The flood counter (app/services/flood.py): per (user, chat) a queue of message
 * times; registering a message appends its time, drops the times older than the
 * window from the front and answers how many are left.
 * Times are whole seconds.
 */
module Flood {

  /** Times in order of arrival, never decreasing. */
  predicate Ordered(bucket: seq<int>) {
    forall i, j :: 0 <= i < j < |bucket| ==> bucket[i] <= bucket[j]
  }

  /** The `popleft` loop: front entries strictly older than `cutoff` are dropped. */
  function Evict(bucket: seq<int>, cutoff: int): (r: seq<int>)
    ensures |r| <= |bucket|
    ensures r == [] || r[0] >= cutoff
  {
    if bucket != [] && bucket[0] < cutoff then Evict(bucket[1..], cutoff) else bucket
  }

  /** Eviction only drops from the front, and only entries older than the cutoff. */
  lemma {:induction false} EvictSuffix(bucket: seq<int>, cutoff: int)
    ensures var r := Evict(bucket, cutoff);
      && r == bucket[|bucket| - |r|..]
      && forall i :: 0 <= i < |bucket| - |r| ==> bucket[i] < cutoff
  {
    if bucket != [] && bucket[0] < cutoff {
      var r := Evict(bucket[1..], cutoff);
      EvictSuffix(bucket[1..], cutoff);
      assert bucket[1..][|bucket[1..]| - |r|..] == bucket[|bucket| - |r|..];
    }
  }

  /** The entries of `bucket` at or after `cutoff`, in order. */
  function AtLeast(bucket: seq<int>, cutoff: int): seq<int> {
    if bucket == [] then []
    else (if bucket[0] >= cutoff then [bucket[0]] else []) + AtLeast(bucket[1..], cutoff)
  }

  /** The number of entries of `bucket` in `[lo, hi]`. */
  function CountIn(bucket: seq<int>, lo: int, hi: int): nat {
    if bucket == [] then 0
    else (if lo <= bucket[0] <= hi then 1 else 0) + CountIn(bucket[1..], lo, hi)
  }

  /** On an ordered queue, eviction keeps exactly the entries at or after the cutoff. */
  lemma {:induction false} EvictOrdered(bucket: seq<int>, cutoff: int)
    requires Ordered(bucket)
    ensures Evict(bucket, cutoff) == AtLeast(bucket, cutoff)
    ensures Ordered(Evict(bucket, cutoff))
  {
    if bucket != [] {
      if bucket[0] < cutoff {
        EvictOrdered(bucket[1..], cutoff);
      } else {
        AllAtLeast(bucket, cutoff);
      }
    }
  }

  lemma {:induction false} AllAtLeast(bucket: seq<int>, cutoff: int)
    requires forall i :: 0 <= i < |bucket| ==> bucket[i] >= cutoff
    ensures AtLeast(bucket, cutoff) == bucket
  {
    if bucket != [] {
      AllAtLeast(bucket[1..], cutoff);
    }
  }

  /** Counting the entries at or after the cutoff of a queue whose entries are all at
      most `hi` is counting those in `[cutoff, hi]`. */
  lemma {:induction false} AtLeastCount(bucket: seq<int>, cutoff: int, hi: int)
    requires forall i :: 0 <= i < |bucket| ==> bucket[i] <= hi
    ensures |AtLeast(bucket, cutoff)| == CountIn(bucket, cutoff, hi)
  {
    if bucket != [] {
      AtLeastCount(bucket[1..], cutoff, hi);
    }
  }

  /** The queue of a (user, chat) pair, empty before its first message. */
  function Bucket(messages: map<(int, int), seq<int>>, key: (int, int)): seq<int> {
    if key in messages then messages[key] else []
  }

  /** `FloodTracker`. */
  class FloodTracker {
    const limit: int
    const window: int
    var messages: map<(int, int), seq<int>>

    constructor(limit: int, windowSeconds: int)
      ensures this.limit == limit && window == windowSeconds && messages == map[]
    {
      this.limit := limit;
      window := windowSeconds;
      messages := map[];
    }

    /** `register`: the pair's queue gets the new time and loses its stale front; no
        other queue changes; the answer is the new queue's length. */
    method Register(userId: int, chatId: int, timestamp: int) returns (count: nat)
      modifies this
      ensures messages == old(messages)[(userId, chatId) := Evict(Bucket(old(messages), (userId, chatId)) + [timestamp], timestamp - window)]
      ensures count == |messages[(userId, chatId)]|
    {
      var key := (userId, chatId);
      var bucket := Bucket(messages, key) + [timestamp];
      var cutoff := timestamp - window;
      ghost var target := Evict(bucket, cutoff);
      while bucket != [] && bucket[0] < cutoff
        invariant Evict(bucket, cutoff) == target
        decreases |bucket|
      {
        bucket := bucket[1..];
      }
      messages := messages[key := bucket];
      count := |bucket|;
    }
  }

  /** With a non-negative window the message just registered is never dropped, so the
      count is at least 1; an entry exactly at the cutoff stays. */
  lemma RegisterCountsItself(bucket: seq<int>, timestamp: int, window: int)
    requires window >= 0
    ensures var r := Evict(bucket + [timestamp], timestamp - window);
      |r| >= 1 && r[|r| - 1] == timestamp
  {
    var b := bucket + [timestamp];
    var r := Evict(b, timestamp - window);
    EvictSuffix(b, timestamp - window);
    assert b[|b| - 1] == timestamp;
  }

  /** A time no earlier than the last keeps a queue ordered. */
  lemma OrderedAppend(bucket: seq<int>, timestamp: int)
    requires Ordered(bucket) && (bucket == [] || bucket[|bucket| - 1] <= timestamp)
    ensures Ordered(bucket + [timestamp])
    ensures forall i :: 0 <= i < |bucket + [timestamp]| ==> (bucket + [timestamp])[i] <= timestamp
  {
    var b := bucket + [timestamp];
    forall i, j | 0 <= i < j < |b| ensures b[i] <= b[j] {
      if j < |bucket| {
        assert b[i] == bucket[i] && b[j] == bucket[j];
      } else if i < |bucket| {
        assert b[i] == bucket[i] <= bucket[|bucket| - 1];
      }
    }
    forall i | 0 <= i < |b| ensures b[i] <= timestamp {
      if i < |bucket| {
        assert b[i] == bucket[i] <= bucket[|bucket| - 1];
      }
    }
  }

  /** When a pair's messages arrive in time order, the count is the number of its
      registered times in `[timestamp - window, timestamp]`, and the queue stays
      ordered. */
  lemma RegisterCountsWindow(bucket: seq<int>, timestamp: int, window: int)
    requires Ordered(bucket) && (bucket == [] || bucket[|bucket| - 1] <= timestamp)
    ensures var r := Evict(bucket + [timestamp], timestamp - window);
      && |r| == CountIn(bucket + [timestamp], timestamp - window, timestamp)
      && Ordered(r)
  {
    var b := bucket + [timestamp];
    var cutoff := timestamp - window;
    OrderedAppend(bucket, timestamp);
    EvictOrdered(b, cutoff);
    var r := Evict(b, cutoff);
    assert r == AtLeast(b, cutoff);
    AtLeastCount(b, cutoff, timestamp);
    assert |r| == CountIn(b, cutoff, timestamp);
  }
}
