/**
 * Moderation strikes (app/services/strikes.py). The `strikes` table is modelled per
 * (user, chat) pair as the creation times of its strikes, in seconds, in the order
 * they were inserted.
 */
module Strikes {

  /** `STRIKE_RESET_DAYS`, in seconds. */
  const StrikeResetDays := 30
  const StrikeResetSeconds := StrikeResetDays * 86400

  /** `func.min(Strike.created_at)` over a non-empty set of strikes. */
  function Oldest(times: seq<int>): (m: int)
    requires times != []
    ensures m in times
    ensures forall i :: 0 <= i < |times| ==> m <= times[i]
  {
    if |times| == 1 then times[0]
    else
      var rest := Oldest(times[1..]);
      assert forall i :: 1 <= i < |times| ==> times[i] == times[1..][i - 1];
      if times[0] <= rest then times[0] else rest
  }

  /** The pair's strikes have expired: there is an oldest one and it is more than 30
      days before `now`. */
  predicate Expired(times: seq<int>, now: int) {
    times != [] && now - Oldest(times) > StrikeResetSeconds
  }

  /** The pair's strikes after `add_strike`: the expired ones are deleted, then one
      created now is added. */
  function AfterStrike(times: seq<int>, now: int): seq<int> {
    (if Expired(times, now) then [] else times) + [now]
  }

  /** The count `add_strike` answers is at least 1; it is 1 after an expiry and one more
      than before otherwise. */
  lemma AddStrikeCount(times: seq<int>, now: int)
    ensures |AfterStrike(times, now)| >= 1
    ensures Expired(times, now) ==> |AfterStrike(times, now)| == 1
    ensures !Expired(times, now) ==> |AfterStrike(times, now)| == |times| + 1
  {
  }

  /** When no stored strike is later than `now`, every strike the pair holds after
      `add_strike` lies in the 30 days up to `now`: the reset leaves no stale strike
      behind. */
  lemma {:induction false} AfterStrikeRecent(times: seq<int>, now: int)
    requires forall i :: 0 <= i < |times| ==> times[i] <= now
    ensures var after := AfterStrike(times, now);
      forall i :: 0 <= i < |after| ==> 0 <= now - after[i] <= StrikeResetSeconds
  {
    var after := AfterStrike(times, now);
    if !Expired(times, now) {
      forall i | 0 <= i < |after|
        ensures 0 <= now - after[i] <= StrikeResetSeconds
      {
        if i < |times| {
          assert after[i] == times[i];
          assert Oldest(times) <= times[i];
        }
      }
    } else {
      assert after == [now];
    }
  }

  /** A strike one second past the 30 days resets the count; one exactly 30 days old
      does not. */
  lemma ExpiryBoundary(t: int)
    ensures Expired([t], t + StrikeResetSeconds + 1)
    ensures !Expired([t], t + StrikeResetSeconds)
    ensures |AfterStrike([t], t + StrikeResetSeconds)| == 2
  {
    assert Oldest([t]) == t;
  }

  /** The strikes of a pair, none before its first. */
  function StrikesOf(strikes: map<(int, int), seq<int>>, key: (int, int)): seq<int> {
    if key in strikes then strikes[key] else []
  }

  /** The `strikes` table. */
  class StrikeTable {
    var strikes: map<(int, int), seq<int>>

    constructor ()
      ensures strikes == map[]
    {
      strikes := map[];
    }

    /** `add_strike`: expired strikes of the pair are deleted, a new one is inserted at
        `now`, and the pair's count is the answer; other pairs keep their strikes. The
        current time is a parameter. */
    method AddStrike(userId: int, chatId: int, now: int) returns (count: nat)
      modifies this
      ensures strikes == old(strikes)[(userId, chatId) := AfterStrike(StrikesOf(old(strikes), (userId, chatId)), now)]
      ensures count == |StrikesOf(strikes, (userId, chatId))|
    {
      var key := (userId, chatId);
      var times := StrikesOf(strikes, key);
      if times != [] && now - Oldest(times) > StrikeResetSeconds {
        times := [];
      }
      times := times + [now];
      strikes := strikes[key := times];
      count := |times|;
    }

    /** `clear_strikes`: the pair has no strikes left; other pairs keep theirs. */
    method ClearStrikes(userId: int, chatId: int)
      modifies this
      ensures strikes == map k | k in old(strikes) && k != (userId, chatId) :: old(strikes)[k]
      ensures StrikesOf(strikes, (userId, chatId)) == []
    {
      strikes := map k | k in strikes && k != (userId, chatId) :: strikes[k];
    }
  }
}
