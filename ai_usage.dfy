/**
 * The daily AI quota counters (app/services/ai_usage.py). The `ai_usage` table is a
 * map keyed by its primary key (date key, chat id); a row holds the day's request
 * and token counters.
 */
module AiUsageQuota {
  import opened Wrappers

  /** A row of `ai_usage`. */
  datatype AiUsage = AiUsage(requestCount: int, tokensUsed: int)

  /** `AiUsageStats`. */
  datatype AiUsageStats = AiUsageStats(requestsUsed: int, tokensUsed: int)

  /** Why `can_consume_ai` refuses. */
  datatype DenyReason = RequestLimitReached | TokenLimitReached

  /** The answer of `can_consume_ai`: allowed, or refused with a reason. */
  datatype Consume = Allowed | Denied(reason: DenyReason)

  type UsageKey = (string, int)

  /** Counters are never negative. */
  ghost predicate CountersValid(rows: map<UsageKey, AiUsage>) {
    forall k :: k in rows ==> rows[k].requestCount >= 0 && rows[k].tokensUsed >= 0
  }

  /** The row of (date key, chat), or a fresh zero row when there is none. */
  function UsageOrNew(rows: map<UsageKey, AiUsage>, key: UsageKey): AiUsage {
    if key in rows then rows[key] else AiUsage(0, 0)
  }

  /** `get_usage_stats`: the row's counters, zeros for a missing row. */
  function GetUsageStats(rows: map<UsageKey, AiUsage>, dateKey: string, chatId: int): (stats: AiUsageStats)
    ensures (dateKey, chatId) !in rows ==> stats == AiUsageStats(0, 0)
    ensures CountersValid(rows) ==> stats.requestsUsed >= 0 && stats.tokensUsed >= 0
  {
    var usage := UsageOrNew(rows, (dateKey, chatId));
    AiUsageStats(usage.requestCount, usage.tokensUsed)
  }

  /** `can_consume_ai`. */
  function CanConsumeAi(rows: map<UsageKey, AiUsage>, dateKey: string, chatId: int, requestLimit: int, tokenLimit: int): Consume {
    var key := (dateKey, chatId);
    if key !in rows then Allowed
    else if rows[key].requestCount >= requestLimit then Denied(RequestLimitReached)
    else if tokenLimit > 0 && rows[key].tokensUsed >= tokenLimit then Denied(TokenLimitReached)
    else Allowed
  }

  /** Each answer of `can_consume_ai` in terms of the counters `get_usage_stats`
      reports: a day without a row is allowed, the request limit is checked first, and
      the token limit only counts when it is positive. */
  lemma CanConsumeAiIff(rows: map<UsageKey, AiUsage>, dateKey: string, chatId: int, requestLimit: int, tokenLimit: int)
    ensures var c, s, present := CanConsumeAi(rows, dateKey, chatId, requestLimit, tokenLimit),
        GetUsageStats(rows, dateKey, chatId), (dateKey, chatId) in rows;
      && (c == Denied(RequestLimitReached) <==> present && s.requestsUsed >= requestLimit)
      && (c == Denied(TokenLimitReached) <==>
            present && s.requestsUsed < requestLimit && tokenLimit > 0 && s.tokensUsed >= tokenLimit)
      && (c == Allowed <==>
            !present || (s.requestsUsed < requestLimit && (tokenLimit <= 0 || s.tokensUsed < tokenLimit)))
  {
  }

  /** A day with no usage yet is always allowed, whatever the limits. */
  lemma NoRowAllowed(rows: map<UsageKey, AiUsage>, dateKey: string, chatId: int, requestLimit: int, tokenLimit: int)
    requires (dateKey, chatId) !in rows
    ensures CanConsumeAi(rows, dateKey, chatId, requestLimit, tokenLimit) == Allowed
  {
  }

  /** The row `add_usage` leaves: one more request, and the non-negative part of the
      reported tokens. */
  function AfterUsage(usage: AiUsage, tokens: int): AiUsage {
    AiUsage(usage.requestCount + 1, usage.tokensUsed + if tokens > 0 then tokens else 0)
  }

  /** `add_usage` never lowers a counter: the request counter grows by exactly one and
      the token counter by `max(0, tokens)`, so a valid row stays valid. */
  lemma AfterUsageMonotone(usage: AiUsage, tokens: int)
    ensures AfterUsage(usage, tokens).requestCount == usage.requestCount + 1
    ensures AfterUsage(usage, tokens).tokensUsed >= usage.tokensUsed
    ensures AfterUsage(usage, tokens).tokensUsed - usage.tokensUsed == if tokens > 0 then tokens else 0
    ensures usage.requestCount >= 0 && usage.tokensUsed >= 0 ==>
      AfterUsage(usage, tokens).requestCount >= 1 && AfterUsage(usage, tokens).tokensUsed >= 0
  {
  }

  /** Once the request counter has reached the limit, more usage keeps the day refused
      for that reason. */
  lemma {:induction false} RequestLimitSticks(rows: map<UsageKey, AiUsage>, key: UsageKey, tokens: int, requestLimit: int, tokenLimit: int)
    requires CanConsumeAi(rows, key.0, key.1, requestLimit, tokenLimit) == Denied(RequestLimitReached)
    ensures var after := rows[key := AfterUsage(UsageOrNew(rows, key), tokens)];
      CanConsumeAi(after, key.0, key.1, requestLimit, tokenLimit) == Denied(RequestLimitReached)
  {
    assert key in rows;
    var after := rows[key := AfterUsage(UsageOrNew(rows, key), tokens)];
    assert after[key].requestCount == rows[key].requestCount + 1;
  }

  /** Whether `reset_ai_usage` with an optional chat deletes a row. */
  predicate ResetMatches(chatId: Option<int>, key: UsageKey) {
    chatId.None? || key.1 == chatId.value
  }

  /** The rows `reset_ai_usage` keeps. */
  function ResetRows(rows: map<UsageKey, AiUsage>, chatId: Option<int>): map<UsageKey, AiUsage> {
    map k | k in rows && !ResetMatches(chatId, k) :: rows[k]
  }

  /** Resetting everything empties the table; resetting one chat removes every day of
      that chat, so its next request is allowed, and keeps every other chat's rows. */
  lemma ResetRowsFacts(rows: map<UsageKey, AiUsage>, chatId: Option<int>)
    ensures chatId.None? ==> ResetRows(rows, chatId) == map[]
    ensures forall k :: k in ResetRows(rows, chatId) <==> k in rows && !ResetMatches(chatId, k)
    ensures forall k :: k in ResetRows(rows, chatId) ==> ResetRows(rows, chatId)[k] == rows[k]
    ensures chatId.Some? ==> forall d, rl, tl :: CanConsumeAi(ResetRows(rows, chatId), d, chatId.value, rl, tl) == Allowed
  {
    if chatId.None? {
      assert ResetRows(rows, chatId).Keys == {};
    }
  }

  /** The rows `clear_old_usage` keeps: today's. */
  function TodayRows(rows: map<UsageKey, AiUsage>, today: string): map<UsageKey, AiUsage> {
    map k | k in rows && k.0 == today :: rows[k]
  }

  /** After clearing, only today's rows remain, each unchanged, so today's counters and
      today's quota decisions are exactly as before. */
  lemma TodayRowsFacts(rows: map<UsageKey, AiUsage>, today: string)
    ensures forall k :: k in TodayRows(rows, today) ==> k.0 == today
    ensures forall c :: GetUsageStats(TodayRows(rows, today), today, c) == GetUsageStats(rows, today, c)
    ensures forall c, rl, tl :: CanConsumeAi(TodayRows(rows, today), today, c, rl, tl) == CanConsumeAi(rows, today, c, rl, tl)
  {
  }

  /** The number of rows dropped when `kept` is a sub-map of `rows`. */
  lemma {:induction false} DroppedCount(rows: map<UsageKey, AiUsage>, kept: map<UsageKey, AiUsage>)
    requires kept.Keys <= rows.Keys
    ensures |rows.Keys - kept.Keys| == |rows| - |kept|
  {
    var gone := rows.Keys - kept.Keys;
    assert rows.Keys == gone + kept.Keys;
    assert gone * kept.Keys == {};
  }

  /** The `ai_usage` table. */
  class AiUsageTable {
    var rows: map<UsageKey, AiUsage>

    ghost predicate Valid()
      reads this
    {
      CountersValid(rows)
    }

    constructor ()
      ensures rows == map[] && Valid()
    {
      rows := map[];
    }

    /** `get_or_create_usage`: the existing row, or a new zero row which is stored. */
    method GetOrCreateUsage(dateKey: string, chatId: int) returns (usage: AiUsage)
      requires Valid()
      modifies this
      ensures Valid()
      ensures usage == UsageOrNew(old(rows), (dateKey, chatId))
      ensures rows == old(rows)[(dateKey, chatId) := usage]
    {
      var key := (dateKey, chatId);
      if key in rows {
        usage := rows[key];
      } else {
        usage := AiUsage(0, 0);
        rows := rows[key := usage];
      }
    }

    /** `add_usage`: the row (created when missing) gets one more request and the
        non-negative part of the tokens; the answer is the new counters. */
    method AddUsage(dateKey: string, chatId: int, tokensUsed: int) returns (stats: AiUsageStats)
      requires Valid()
      modifies this
      ensures Valid()
      ensures rows == old(rows)[(dateKey, chatId) := AfterUsage(UsageOrNew(old(rows), (dateKey, chatId)), tokensUsed)]
      ensures stats == GetUsageStats(rows, dateKey, chatId)
    {
      var usage := GetOrCreateUsage(dateKey, chatId);
      usage := usage.(requestCount := usage.requestCount + 1);
      usage := usage.(tokensUsed := usage.tokensUsed + if tokensUsed > 0 then tokensUsed else 0);
      rows := rows[(dateKey, chatId) := usage];
      stats := AiUsageStats(usage.requestCount, usage.tokensUsed);
    }

    /** `reset_ai_usage`: every row, or every row of one chat, is deleted; the answer is
        how many rows went. */
    method ResetAiUsage(chatId: Option<int>) returns (deleted: nat)
      requires Valid()
      modifies this
      ensures Valid()
      ensures rows == ResetRows(old(rows), chatId)
      ensures deleted == |old(rows)| - |rows|
    {
      var kept := ResetRows(rows, chatId);
      DroppedCount(rows, kept);
      deleted := |rows.Keys - kept.Keys|;
      rows := kept;
    }

    /** `clear_old_usage`: every row of a day other than `today` is deleted; the answer
        is how many rows went. The current date is a parameter. */
    method ClearOldUsage(today: string) returns (deleted: nat)
      requires Valid()
      modifies this
      ensures Valid()
      ensures rows == TodayRows(old(rows), today)
      ensures deleted == |old(rows)| - |rows|
    {
      var kept := TodayRows(rows, today);
      DroppedCount(rows, kept);
      deleted := |rows.Keys - kept.Keys|;
      rows := kept;
    }
  }
}
