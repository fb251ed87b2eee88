/**
 * The blackjack ("21") rules and the coin accounting of app/services/games.py:
 * hand valuation with soft aces, the dealer's drawing rule, the outcome of a
 * game, the per-user statistics row and the daily coin-grant limiter.
 * Times are whole seconds.
 */
module Games {
  import opened Wrappers

  // ---------------------------------------------------------------------
  // Cards and hands
  // ---------------------------------------------------------------------

  /** The cards `_draw_card` chooses from: 2 to 9, three tens for the faces, and the ace as 11. */
  const Deck: seq<int> := [2, 3, 4, 5, 6, 7, 8, 9, 10, 10, 10, 11]

  function Sum(hand: seq<int>): int {
    if hand == [] then 0 else Sum(hand[..|hand| - 1]) + hand[|hand| - 1]
  }

  /** `hand.count(11)`. */
  function Aces(hand: seq<int>): nat {
    if hand == [] then 0 else Aces(hand[..|hand| - 1]) + (if hand[|hand| - 1] == 11 then 1 else 0)
  }

  /** The loop of `_hand_value`: while the total is over 21 and an ace is left,
      count one more ace as 1 instead of 11. */
  function Soften(total: int, aces: nat): int {
    if total > 21 && aces > 0 then Soften(total - 10, aces - 1) else total
  }

  /** `_hand_value`. */
  function HandValue(hand: seq<int>): int {
    Soften(Sum(hand), Aces(hand))
  }

  lemma {:induction false} SoftenFacts(total: int, aces: nat)
    ensures var v := Soften(total, aces);
      && (exists k :: 0 <= k <= aces && v == total - 10 * k)
      && total - 10 * aces <= v <= total
      && (total - 10 * aces <= 21 ==> v <= 21)
      && (v > 21 ==> v == total - 10 * aces)
      && (v < total ==> v + 10 > 21)
  {
    if total > 21 && aces > 0 {
      SoftenFacts(total - 10, aces - 1);
      var k :| 0 <= k <= aces - 1 && Soften(total - 10, aces - 1) == total - 10 - 10 * k;
      assert Soften(total, aces) == total - 10 * (k + 1);
    } else {
      assert Soften(total, aces) == total - 10 * 0;
    }
  }

  /** What the hand value is: the sum with some number k of the aces counted as 1,
      where k is the least number that brings the value to 21 or below, or all the
      aces when none does. */
  lemma HandValueFacts(hand: seq<int>)
    ensures var v, s, a := HandValue(hand), Sum(hand), Aces(hand);
      && (exists k :: 0 <= k <= a && v == s - 10 * k)
      && s - 10 * a <= v <= s
      && (s - 10 * a <= 21 ==> v <= 21)
      && (v > 21 ==> v == s - 10 * a)
      && (v < s ==> v + 10 > 21)
  {
    SoftenFacts(Sum(hand), Aces(hand));
  }

  /** `_hand_value` as written: the sum, the ace count, and the softening loop. */
  method ComputeHandValue(hand: seq<int>) returns (total: int)
    ensures total == HandValue(hand)
  {
    total := 0;
    var aces: nat := 0;
    var i := 0;
    while i < |hand|
      invariant 0 <= i <= |hand|
      invariant total == Sum(hand[..i]) && aces == Aces(hand[..i])
    {
      assert hand[..i + 1][..i] == hand[..i];
      total := total + hand[i];
      if hand[i] == 11 {
        aces := aces + 1;
      }
      i := i + 1;
    }
    assert hand[..|hand|] == hand;
    while total > 21 && aces > 0
      invariant Soften(total, aces) == HandValue(hand)
      decreases aces
    {
      total := total - 10;
      aces := aces - 1;
    }
  }

  /** `_is_exact_21`. */
  predicate IsExact21(hand: seq<int>) {
    HandValue(hand) == 21
  }

  lemma SumAppend(hand: seq<int>, c: int)
    ensures Sum(hand + [c]) == Sum(hand) + c
    ensures Aces(hand + [c]) == Aces(hand) + (if c == 11 then 1 else 0)
  {
    assert (hand + [c])[..|hand|] == hand;
  }

  /** The dealer's rule on a known supply of cards: draw the next card while the hand is
      worth less than 17 and cards are left. */
  function DealerDraws(hand: seq<int>, cards: seq<int>): seq<int>
    decreases |cards|
  {
    if HandValue(hand) >= 17 || cards == [] then hand else DealerDraws(hand + [cards[0]], cards[1..])
  }

  /** A hand grown from `hand` by cards each drawn below 17 and ending at 17 or more is
      exactly what the dealer's rule makes of `hand` with those cards: the stopping rule
      determines the final hand from the cards drawn. */
  lemma {:induction false} DealerStopsAt(hand: seq<int>, final: seq<int>)
    requires |hand| <= |final| && final[..|hand|] == hand
    requires forall j :: |hand| <= j < |final| ==> HandValue(final[..j]) < 17
    requires HandValue(final) >= 17
    ensures DealerDraws(hand, final[|hand|..]) == final
    decreases |final| - |hand|
  {
    if |final| == |hand| {
      assert final == hand;
    } else {
      assert HandValue(final[..|hand|]) < 17;
      var next := hand + [final[|hand|]];
      assert next == final[..|hand| + 1];
      assert final[|hand|..][1..] == final[|next|..];
      assert forall j :: |next| <= j < |final| ==> HandValue(final[..j]) < 17;
      DealerStopsAt(next, final);
    }
  }

  /** `_dealer_play`: the dealer draws until the hand is worth 17 or more. The hand
      only grows by cards of the deck, every card is drawn while the hand before it is
      worth less than 17, and the hand ends at 17 or more; so a hand already worth 17
      or more is kept as it is. */
  method DealerPlay(hand: seq<int>) returns (final: seq<int>)
    ensures |hand| <= |final| && final[..|hand|] == hand
    ensures forall i :: |hand| <= i < |final| ==> final[i] in Deck
    ensures forall j :: |hand| <= j < |final| ==> HandValue(final[..j]) < 17
    ensures HandValue(final) >= 17
    ensures HandValue(hand) >= 17 ==> final == hand
    ensures final == DealerDraws(hand, final[|hand|..])
  {
    final := hand;
    while HandValue(final) < 17
      invariant |hand| <= |final| && final[..|hand|] == hand
      invariant forall i :: |hand| <= i < |final| ==> final[i] in Deck
      invariant forall j :: |hand| <= j < |final| ==> HandValue(final[..j]) < 17
      decreases 17 - (Sum(final) - 10 * Aces(final))
    {
      assert Deck[0] in Deck;
      var card :| card in Deck;
      HandValueFacts(final);
      SumAppend(final, card);
      var next := final + [card];
      assert next[..|final|] == final;
      assert forall j :: |hand| <= j < |final| ==> next[..j] == final[..j];
      final := next;
    }
    if |final| > |hand| {
      assert HandValue(final[..|hand|]) < 17;
    }
    DealerStopsAt(hand, final);
  }

  // ---------------------------------------------------------------------
  // Outcome of a game
  // ---------------------------------------------------------------------

  datatype GameResult = Win | Lose | Push

  /** The comparison cascade of `evaluate_game`. */
  function Decide(playerValue: int, dealerValue: int): GameResult {
    if playerValue > 21 then Lose
    else if dealerValue > 21 then Win
    else if playerValue > dealerValue then Win
    else if playerValue < dealerValue then Lose
    else Push
  }

  /** Each outcome exactly characterised: the player wins by not busting while the
      dealer busts or is beaten; loses by busting or being beaten; and pushes on equal
      values of 21 or less. With neither bust, swapping the values swaps win and lose. */
  lemma DecideIff(p: int, d: int)
    ensures Decide(p, d) == Win <==> p <= 21 && (d > 21 || p > d)
    ensures Decide(p, d) == Lose <==> p > 21 || (d <= 21 && p < d)
    ensures Decide(p, d) == Push <==> p <= 21 && d <= 21 && p == d
    ensures p <= 21 && d <= 21 ==> (Decide(p, d) == Win <==> Decide(d, p) == Lose)
  {
  }

  /** A game: the player's and the dealer's hands, whether it is over, and when it started. */
  datatype BlackjackState = BlackjackState(playerHand: seq<int>, dealerHand: seq<int>, finished: bool, startedAt: Option<int>)

  /** `evaluate_game`: the dealer plays out the hand (which the source extends in place;
      here the extended hand is returned), then the values are compared. The flag says
      whether the player's hand is worth exactly 21. */
  method EvaluateGame(state: BlackjackState) returns (result: GameResult, exact21: bool, dealerHand: seq<int>)
    ensures |state.dealerHand| <= |dealerHand| && dealerHand[..|state.dealerHand|] == state.dealerHand
    ensures forall i :: |state.dealerHand| <= i < |dealerHand| ==> dealerHand[i] in Deck
    ensures forall j :: |state.dealerHand| <= j < |dealerHand| ==> HandValue(dealerHand[..j]) < 17
    ensures HandValue(dealerHand) >= 17
    ensures HandValue(state.dealerHand) >= 17 ==> dealerHand == state.dealerHand
    ensures dealerHand == DealerDraws(state.dealerHand, dealerHand[|state.dealerHand|..])
    ensures result == Decide(HandValue(state.playerHand), HandValue(dealerHand))
    ensures exact21 == IsExact21(state.playerHand)
  {
    var playerValue := ComputeHandValue(state.playerHand);
    dealerHand := DealerPlay(state.dealerHand);
    var dealerValue := ComputeHandValue(dealerHand);
    exact21 := playerValue == 21;
    result := Decide(playerValue, dealerValue);
  }

  /** `GAME_TIMEOUT_MINUTES` in seconds. */
  const GameTimeout := 60

  /** `is_game_timed_out`: strictly more than one minute since the start; never for a
      game without a start time. */
  predicate IsGameTimedOut(state: BlackjackState, now: int) {
    state.startedAt.Some? && now - state.startedAt.value > GameTimeout
  }

  /** A timed-out game stays timed out as the clock advances. */
  lemma TimedOutStays(state: BlackjackState, now: int, later: int)
    requires IsGameTimedOut(state, now) && now <= later
    ensures IsGameTimedOut(state, later)
  {
  }

  // ---------------------------------------------------------------------
  // The user_stats row and the coin limiter
  // ---------------------------------------------------------------------

  /** A `user_stats` row. */
  datatype UserStat = UserStat(
    coins: int,
    gamesPlayed: int,
    wins: int,
    displayName: Option<string>,
    lastCoinGrantAt: Option<int>,
    coinsGrantedToday: int)

  /** The coins every new row starts with. */
  const StartingCoins := 100

  /** A new row: the starting coins and the column defaults. */
  function NewUserStat(displayName: Option<string>): UserStat {
    UserStat(StartingCoins, 0, 0, displayName, None, 0)
  }

  /** A non-empty display name, which is the only kind that overwrites a stored one. */
  predicate IsName(displayName: Option<string>) {
    displayName.Some? && displayName.value != ""
  }

  /** The most coins that may be granted to one user per day. */
  const DailyGrantCap := 10

  /** One day in seconds. */
  const Day := 86400

  /** True when the last grant is missing or more than a day old, so the daily
      counter starts again. */
  predicate GrantWindowExpired(stats: UserStat, now: int) {
    stats.lastCoinGrantAt.None? || now - stats.lastCoinGrantAt.value > Day
  }

  /** `can_grant_coins`. */
  predicate CanGrantCoins(stats: UserStat, now: int, amount: int) {
    if amount > DailyGrantCap then false
    else if GrantWindowExpired(stats, now) then true
    else stats.coinsGrantedToday + amount <= DailyGrantCap
  }

  /** The `user_stats` table, keyed by (user id, chat id). */
  class UserStatsTable {
    var rows: map<(int, int), UserStat>

    constructor ()
      ensures rows == map[]
    {
      rows := map[];
    }

    /** `get_or_create_stats`: a missing row is created with the starting coins; a
        non-empty display name overwrites the stored one. */
    method GetOrCreateStats(userId: int, chatId: int, displayName: Option<string>) returns (stats: UserStat)
      modifies this
      ensures var before := if (userId, chatId) in old(rows) then old(rows)[(userId, chatId)] else NewUserStat(displayName);
        stats == if IsName(displayName) then before.(displayName := displayName) else before
      ensures rows == old(rows)[(userId, chatId) := stats]
    {
      var key := (userId, chatId);
      if key in rows {
        stats := rows[key];
      } else {
        stats := NewUserStat(displayName);
      }
      if IsName(displayName) {
        stats := stats.(displayName := displayName);
      }
      rows := rows[key := stats];
    }

    /** `apply_game_result`: one more game played; a win adds a win and 2 coins for an
        exact 21, else 1; a loss costs 1 coin; a push changes neither. */
    method ApplyGameResult(userId: int, chatId: int, result: GameResult, exact21: bool, displayName: Option<string>)
      returns (stats: UserStat)
      modifies this
      ensures var before := if (userId, chatId) in old(rows) then old(rows)[(userId, chatId)] else NewUserStat(displayName);
        && stats.gamesPlayed == before.gamesPlayed + 1
        && stats.wins == before.wins + (if result == Win then 1 else 0)
        && stats.coins == before.coins + (match result case Win => if exact21 then 2 else 1 case Lose => -1 case Push => 0)
        && stats.lastCoinGrantAt == before.lastCoinGrantAt
        && stats.coinsGrantedToday == before.coinsGrantedToday
        && stats.displayName == if IsName(displayName) then displayName else before.displayName
      ensures rows == old(rows)[(userId, chatId) := stats]
    {
      stats := GetOrCreateStats(userId, chatId, displayName);
      stats := stats.(gamesPlayed := stats.gamesPlayed + 1);
      if result == Win {
        stats := stats.(wins := stats.wins + 1, coins := stats.coins + if exact21 then 2 else 1);
      } else if result == Lose {
        stats := stats.(coins := stats.coins - 1);
      }
      rows := rows[(userId, chatId) := stats];
    }

    /** `register_coin_grant` on the row of (user, chat): the daily counter restarts
        when the last grant is missing or over a day old, then the amount is added to
        the counter and to the coins, and the grant time is now. */
    method RegisterCoinGrant(userId: int, chatId: int, now: int, amount: int)
      requires (userId, chatId) in rows
      modifies this
      ensures rows == old(rows)[(userId, chatId) := AfterGrant(old(rows)[(userId, chatId)], now, amount)]
    {
      var stats := rows[(userId, chatId)];
      if GrantWindowExpired(stats, now) {
        stats := stats.(coinsGrantedToday := 0);
      }
      stats := stats.(coinsGrantedToday := stats.coinsGrantedToday + amount);
      stats := stats.(lastCoinGrantAt := Some(now));
      stats := stats.(coins := stats.coins + amount);
      rows := rows[(userId, chatId) := stats];
    }
  }

  /** The row `register_coin_grant` leaves. */
  function AfterGrant(stats: UserStat, now: int, amount: int): UserStat {
    stats.(
      coinsGrantedToday := (if GrantWindowExpired(stats, now) then 0 else stats.coinsGrantedToday) + amount,
      lastCoinGrantAt := Some(now),
      coins := stats.coins + amount)
  }

  /** The limiter and the grant agree: a grant the limiter allows leaves at most the
      daily cap granted in the current window, and a non-negative grant the limiter
      refuses is either over the cap on its own or would push the day's total over it. */
  lemma GrantKeepsDailyCap(stats: UserStat, now: int, amount: int)
    ensures CanGrantCoins(stats, now, amount) ==> AfterGrant(stats, now, amount).coinsGrantedToday <= DailyGrantCap
    ensures !CanGrantCoins(stats, now, amount) ==>
      amount > DailyGrantCap || (!GrantWindowExpired(stats, now) && AfterGrant(stats, now, amount).coinsGrantedToday > DailyGrantCap)
  {
  }
}
