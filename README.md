# A model of the quiz engine and rule sets of a neighbourhood chat bot

The bot runs a residential complex's Telegram forum. This project models its core:

- **Quiz.** Ten-question rounds per forum topic ("scope" = chat id and topic id). Questions come from a shared bank: a question text used by any quiz is never served again. Each question times out after a minute and is followed by a break. The tolerant answer matcher uses word normalisation, Levenshtein distance and a greedy pairing of words within a typo budget. Per-round tallies decide the winners, who get a coin bonus.
- **Blackjack ("21").** Hand valuation with soft aces, the dealer's drawing rule, the outcome cascade, and the per-user coin accounting with its daily grant cap.
- **AI client.** The local quiz-answer judge and the parser of the model's verdict. The local profanity and rudeness moderation, with its masking-resistant normaliser, and the parser of the model's moderation reply. The assistant's topic filter. The HTTP retry policy. The cooldown of admin alerts.
- **Question loader.** The spreadsheet column index, the row filter, the `DONE|q1|a1|…` hand-over message with its decoder, and the duplicate check when saving.
- **Small rule sets.** The sliding-window flood counter, the daily AI quota counters, 30-day strike expiry, and the per-topic daily message counters.
- **Text utilities.** The moderation word splitter, the profanity scan and the link detector.

Database tables are maps. Most are keyed by their primary keys. The `quiz_sessions`, `strikes` and `topic_stats` tables have an `id` primary key, but the code looks their rows up by scope, by (user, chat) and by (chat, topic, date), and those are the map keys here. Timestamps are integers in seconds. Python's `str.lower`, `str.split`, `" ".join` and the regex classes `\w` and `\s` are modelled on a character model. That model follows Python on ASCII, on the Latin-1 letters and on the Cyrillic letters `Ѐ`–`џ` (U+0400–U+045F), with the gaps listed under Left out. Objects and module-level registries that the source updates in place are classes: the quiz database, the quiz handler's registries, the flood tracker, the AI usage, strike, topic-stat and user-stat tables, and the admin-alert table. Code that only computes is functions with lemmas. The loops of the source (Levenshtein, the matcher, hand valuation, the dealer's drawing, the retry loop, the column index, the spreadsheet rows, the DONE message and its decoder, the duplicate check, the flood eviction) are methods proved equal to specification functions. Those functions' properties are proved as lemmas.

Modules, one per file: `Wrappers` (Option), `Text` (app/utils/text.py and the string primitives), `QuizMatch` (the answer matcher of app/services/quiz.py), `QuizService` (the bookkeeping of app/services/quiz.py), `QuizRounds` (app/handlers/quiz.py), `Games` (app/services/games.py), `AiModule` (app/services/ai_module.py), `QuizLoader` (app/services/quiz_loader.py), `Flood` (app/services/flood.py), `AiUsageQuota` (app/services/ai_usage.py), `Strikes` (app/services/strikes.py), `TopicStats` (app/services/topic_stats.py).

Points about the code that a reader might expect otherwise:

- The code has no grace window for simultaneous answers and no pending-answer set. The first accepted answer takes the point and the round moves on.
- The code has no per-scope lock. Stale timeouts are recognised only by comparing the captured start time.
- The matcher is the only judge the quiz handler calls. The AI judge exists but is not wired into the round.
- After a timeout the code leaves the revealed question current (see Findings).

## Model

| member | source | states |
|---|---|---|
| Text.LowerFacts | app/utils/text.py:21 | lowering a character is idempotent and keeps it a word character or whitespace exactly when it was one |
| Text.LowerStrIsLowered | app/utils/text.py:21 | `lower()` leaves no character that lowers further |
| Text.SplitAreWords | app/utils/text.py:22 | `split()` yields non-empty words without whitespace |
| Text.SplitChars | app/utils/text.py:22 | every character of a split word comes from the text |
| Text.SplitJoin | app/services/quiz.py:31-32 | round trip: splitting the space-joined words gives the words back |
| Text.JoinLowered | app/services/quiz.py:31-32 | joining lowered words gives a lowered string |
| Text.SplitOfLowered | app/services/quiz.py:31-32 | the words of a lowered text are lowered |
| Text.NormalizeSpacingIdempotent | app/services/quiz.py:31-32 | the question key is a fixed point of its own normalisation, and its words are those of the lowered text |
| Text.NormalizeWords | app/utils/text.py:18-22 | `normalize_words` gives non-empty, lowered words made only of word characters |
| Text.NormalizeWordsSeparator | app/utils/text.py:21-22 | any non-word character separates: the words of `a + x + b` are those of `a` followed by those of `b` |
| Text.ContainsProfanityIff | app/utils/text.py:25-40 | the early-return scan is true exactly when some word is not an exception and is an exact word or has a listed prefix; never for an empty list or only exceptions |
| Text.LinkMatchAtIff | app/utils/text.py:8-15 | the link pattern matches exactly where `http://`, `https://`, `www.` or `t.me/` is followed by a non-whitespace character |
| QuizMatch.NormalizeWordsAgree | app/services/quiz.py:127-134 | the quiz's `_normalize_words` equals the moderation `normalize_words`, and `_normalize_text` is those words joined by spaces |
| QuizMatch.EditDistanceZeroIff | app/services/quiz.py:137-139 | the distance is 0 exactly for equal strings |
| QuizMatch.EditDistanceEmpty | app/services/quiz.py:140-143 | the distance to or from the empty string is the other length |
| QuizMatch.EditDistanceBound | app/services/quiz.py:137-152 | the distance never exceeds the longer length |
| QuizMatch.PrefixDistanceZeroIff | app/services/quiz.py:137-152 | the distance between two prefixes is 0 exactly when the prefixes are equal |
| QuizMatch.PrefixDistanceBound | app/services/quiz.py:137-152 | the distance between two prefixes never exceeds the longer prefix length |
| QuizMatch.Levenshtein | app/services/quiz.py:137-152 | the two-row loop with its early returns computes the edit distance |
| QuizMatch.CollectPairs | app/services/quiz.py:159-164 | the nested loop builds exactly the candidate list |
| QuizMatch.CandidatePairsIff | app/services/quiz.py:159-164 | a triple is a candidate exactly when it pairs valid word positions at their true distance within the budget |
| QuizMatch.SortFacts | app/services/quiz.py:166 | the sort by distance is a sorted permutation that keeps the order of equal-distance pairs (stable) |
| QuizMatch.SortIsTheStableSort | app/services/quiz.py:166 | any sorted list with the same equal-distance runs is the sort's result, so the model's order is Python's stable sort |
| QuizMatch.GreedyFacts | app/services/quiz.py:167-183 | the greedy loop extends the accepted pairs with input pairs, keeps them one-to-one and within budget, returns true exactly when enough are accepted, and otherwise leaves every pair blocked |
| QuizMatch.MatchWordsSound | app/services/quiz.py:155-183 | `_match_words` is false for an empty side; accepted pairs are in-budget candidates, one-to-one, with total typos within budget; true iff at least `needed` pairs, and at least one, are accepted |
| QuizMatch.MatchWordsMaximal | app/services/quiz.py:172-183 | when the matcher returns false, every in-budget pair is blocked by a used word or by the budget |
| QuizMatch.MatchWords | app/services/quiz.py:155-183 | the method (collect, sort, greedy loop with `used_c`/`used_a`) returns the specified answer |
| QuizMatch.OneNeededIff | app/services/quiz.py:155-183 | with one needed match, the matcher accepts exactly when some word pair is within the budget |
| QuizMatch.TierFacts | app/services/quiz.py:186-201 | one canonical word: accept exactly a one-word answer within distance 1; two: accept exactly when some pair is within 2; three or more: an accepted answer has two disjoint pairs with total distance at most 2, and two exact word matches at distinct positions are accepted |
| QuizMatch.ThreeWordsSufficient | app/services/quiz.py:186-200 | three or more canonical words: two exact word matches at distinct positions are accepted |
| QuizMatch.TwoExactAccepted | app/services/quiz.py:155-183 | the matcher needing two pairs within a budget of 2 returns true when two distinct correct words equal two distinct answer words |
| QuizMatch.FirstAcceptedIsLeast | app/services/quiz.py:165-179 | the first pair the matcher accepts has the least distance of all in-budget pairs |
| QuizMatch.SameWordsAccepted | app/services/quiz.py:186-201 | identical non-empty word lists are accepted in every tier |
| QuizMatch.ExactAnswerAccepted | app/services/quiz.py:186-201 | an answer normalising to the canonical words is accepted |
| QuizMatch.HintAgreesWithMatcher | app/services/quiz.py:265-269 | under the "1 word" hint only a one-word answer can be accepted |
| QuizService.AppendIfAbsent | app/services/quiz.py:110-113 | the used-id list keeps its prefix, gains the id at most once, and stays duplicate-free |
| QuizService.FreshSessionPool | app/services/quiz.py:85-102 | a new session's eligible questions are exactly the available ones |
| QuizService.ServingShrinksPool | app/services/quiz.py:105-118 | serving a question removes exactly the questions with its text from the session pool and the available pool, and the available count drops |
| QuizService.DeletingSpentKeepsPool | app/services/quiz.py:221-227 | deleting questions whose texts are used leaves the available pool unchanged |
| QuizService.LaunchGateIff | app/services/quiz.py:48-64 | the gate opens iff no quiz is active and at least 10 questions are available; an active quiz is reported first; a refusal reports the pool size |
| QuizService.WinnersFacts | app/services/quiz.py:282-290 | winners are exactly the users whose points equal the maximum, with their names and points; none only for an empty tally |
| QuizService.QuizDb.StartQuizSession | app/services/quiz.py:67-71 | a new active session at question 0 with nothing asked; nothing else changes |
| QuizService.QuizDb.GetRandomQuestion | app/services/quiz.py:85-102 | the choice is an eligible question (not asked in the session, text unused); none exactly when none is eligible |
| QuizService.QuizDb.SetCurrentQuestion | app/services/quiz.py:105-118 | the question becomes current, the number goes up by 1, the start time is now, the id joins the used ids once, and the text joins the used set |
| QuizService.QuizDb.ClearCurrentQuestion | app/handlers/quiz.py:358-359 | no question is current and no start time is recorded |
| QuizService.QuizDb.AwardPoint | app/services/quiz.py:204-218 | +1 point; a new row starts at 1 with the given name; an existing row is renamed only by a non-empty name |
| QuizService.QuizDb.EndQuizSession | app/services/quiz.py:221-227 | the session is inactive with no current question, its asked questions are deleted, and the available pool is unchanged |
| QuizService.QuizDb.AwardWinnerBonusCoins | app/services/quiz.py:244-258 | the row, created with 100 coins when missing and renamed by a non-empty name, gains 50 coins |
| QuizRounds.Credit | app/handlers/quiz.py:347-350 | the tally entry of the user rises by exactly 1 (from 0), everyone else's is unchanged |
| QuizRounds.CreditKeepsLeader | app/services/quiz.py:282-290 | a user at most one point behind the top becomes a winner once credited |
| QuizRounds.QuizRounds.CancelTimeout | app/handlers/quiz.py:165-168 | the scope's pending timeout is removed |
| QuizRounds.QuizRounds.StartTimeout | app/handlers/quiz.py:158-162 | the start time is recorded and exactly one timeout with that snapshot is registered for the scope |
| QuizRounds.QuizRounds.AwardBonuses | app/handlers/quiz.py:238-241 | every winner's row becomes exactly what `award_winner_bonus_coins` makes of it (the stored row, or a new one with the starting coins, renamed to the tally name when non-empty, other columns kept, coins plus the bonus); no other row changes and no row is created for a user who did not win |
| QuizRounds.QuizRounds.FinishQuizAndNotify | app/handlers/quiz.py:225-262 | the session ends with no current question, its asked questions are deleted from the bank, the tally is dropped, every user tied at the top gets the coin bonus (the whole row as in `AwardBonuses`) and every other user-stat row is unchanged; used texts, points, start times and timeouts are unchanged |
| QuizRounds.QuizRounds.FinishAndCancel | app/handlers/quiz.py:209-210 | the full finish (session ended, asked questions deleted, tally dropped, bonus paid to the top scorers only, their whole rows as in `AwardBonuses`) followed by cancelling the scope's timeout; used texts and points unchanged |
| QuizRounds.QuizRounds.AskQuestion | app/handlers/quiz.py:213-222 | `set_current_question` then a timeout armed with the new start time |
| QuizRounds.QuizRounds.CreditAnswer | app/handlers/quiz.py:341-350 | timeout cancelled, start time cleared, the points map changes only at the answerer's key (+1, a real display name replaces the stored one), +1 in the tally; sessions, questions, used texts and user stats unchanged |
| QuizRounds.QuizRounds.StartQuiz | app/handlers/quiz.py:110-140 | the tally is emptied first; a question is asked iff the gate allows, and then it is an available question, the session is at question 1 and its timeout is armed; a refused start changes nothing else |
| QuizRounds.QuizRounds.HandleTimeoutAsWritten | app/handlers/quiz.py:171-197 | a stale snapshot does nothing; a finished quiz gets the full finish (session ended, asked questions deleted, bonus paid) and its timeout cancelled; otherwise the break begins with nothing changed, so the revealed question stays current |
| QuizRounds.QuizRounds.HandleTimeout | app/handlers/quiz.py:171-197 | as written, except that the break clears the current question and its start time and changes nothing else (bank, used texts, points, user stats) |
| QuizRounds.QuizRounds.SendNextQuestionAfterBreak | app/handlers/quiz.py:200-222 | no active quiz: nothing changes, points and user stats included; no eligible question: the full finish; otherwise an eligible question is asked, its text joins the used texts, its timeout is armed, and the bank, points and user stats are unchanged |
| QuizRounds.QuizRounds.AcceptAnswer | app/handlers/quiz.py:341-361 | timeout cancelled, start time cleared, the points map changes only at the answerer's key, +1 in the tally, used texts unchanged; after the last question the full finish with the credited tally (asked questions deleted, bonus paid), otherwise the question stops being current and bank and user stats are unchanged |
| QuizRounds.QuizRounds.CheckQuizAnswer | app/handlers/quiz.py:321-363 | only a non-command text that the current question of the games topic accepts changes anything (otherwise every table, used texts and user stats included, is unchanged), and then as in `AcceptAnswer` |
| QuizRounds.QuizRounds.AddQuizPointAdmin | app/handlers/quiz.py:279-301 | the points map changes only at the target's key (+1), +1 in the tally of the games topic (topic 0 when none is set); sessions, timeouts, used texts and user stats unchanged |
| QuizRounds.RevealedAnswerScoresAsWritten | app/handlers/quiz.py:171-197 | with the timeout as written, retyping the revealed answer during the break is accepted |
| QuizRounds.RevealedAnswerRejected | app/handlers/quiz.py:171-197 | with the corrected timeout, the same retyped answer is rejected |
| Games.SoftenFacts | app/services/games.py:49-55 | the softening loop subtracts 10 for some number of aces, stops at 21 or below when it can, and is over 21 only with every ace softened |
| Games.HandValueFacts | app/services/games.py:49-55 | the hand value is the sum with the fewest aces counted as 1 that bring it to 21 or below, or all of them |
| Games.ComputeHandValue | app/services/games.py:49-55 | the loop computes the hand value |
| Games.DealerPlay | app/services/games.py:62-65 | the dealer's hand only grows, by cards of the deck (`_draw_card`); it draws exactly while its value is below 17 (every proper prefix after the starting hand is below 17, the final hand is at least 17, a starting hand of 17 or more is kept), so the result is `DealerDraws` of the starting hand and the drawn cards |
| Games.DealerStopsAt | app/services/games.py:62-65 | a hand that extends the start, stays below 17 before each drawn card and ends at 17 or more is exactly what the drawing rule produces from those cards |
| Games.DecideIff | app/services/games.py:160-168 | win iff the player does not bust and the dealer busts or is beaten; lose iff the player busts or is beaten; push iff equal and neither busts; with no bust, swapping the values swaps win and lose |
| Games.EvaluateGame | app/services/games.py:154-168 | the dealer plays out the hand by the stopping rule (draws only below 17, ends at 17 or more, equal to `DealerDraws`), then the result is the cascade on the two values; the flag is "exactly 21" |
| Games.TimedOutStays | app/services/games.py:232-237 | a timed-out game stays timed out as time passes |
| Games.UserStatsTable.GetOrCreateStats | app/services/games.py:74-89 | the row, created with 100 coins when missing, renamed by a non-empty name |
| Games.UserStatsTable.ApplyGameResult | app/services/games.py:133-151 | one more game; a win adds a win and 2 coins for an exact 21, else 1; a loss costs 1 coin; a push changes neither |
| Games.UserStatsTable.RegisterCoinGrant | app/services/games.py:207-214 | the row becomes the granted row: the counter restarts after a day, then amount added to counter and coins, grant time now |
| Games.GrantKeepsDailyCap | app/services/games.py:197-214 | an allowed grant keeps the day's total within 10; a refused one is over 10 alone or would push the window's total over 10 |
| AiModule.ClampInt | app/services/ai_module.py:419 | the result is in range and equals the input inside it, the nearer bound outside |
| AiModule.ClampUnit | app/services/ai_module.py:420 | the confidence is in [0, 1], the input when it already is |
| AiModule.ReplaceYo | app/services/ai_module.py:497 | `ё` is replaced, the length is kept |
| AiModule.QuizWords | app/services/ai_module.py:496-498 | the quiz normaliser gives non-empty words without whitespace |
| AiModule.NormalizeQuizTextWords | app/services/ai_module.py:496-498 | the normalised text splits back into its words and is empty exactly when there are none |
| AiModule.RatioDecisionFacts | app/services/ai_module.py:516-521 | correct iff overlap/total ≥ 0.8, close iff ≥ 0.3, as exact integer inequalities |
| AiModule.RatioAtLeast | app/services/ai_module.py:516-520 | comparing the float ratio with a threshold is the integer comparison |
| AiModule.WordSetOfNormalized | app/services/ai_module.py:510-511 | the word set of the normalised text is the set of normalised words |
| AiModule.LocalQuizAnswerDecisionFacts | app/services/ai_module.py:501-521 | an empty side is neither correct nor close; equal texts are correct; otherwise the ratio thresholds decide; correct implies close; the "no reference" branch is unreachable |
| AiModule.ParseQuizAnswerResponse | app/services/ai_module.py:430-443 | correctness as given, close when given or correct, confidence the given value (default 0.5) clamped to [0, 1] with out-of-range values sent to the nearer bound, reason the given text (default empty) cut to its first 300 characters |
| AiModule.QuizDecisionsConsistent | app/services/ai_module.py:430-443 | both judges only produce decisions where correct implies close and the confidence is a probability |
| AiModule.MapActionBySeverity | app/services/ai_module.py:468-474 | severities 1, 2, 3 map to warn, delete-warn, delete-strike; everything else to none |
| AiModule.MapActionBySeverityMonotone | app/services/ai_module.py:468-474 | on 0..3 the action's rank is the severity, so it grows with it |
| AiModule.ViolationOf | app/services/ai_module.py:392-401 | hate, threat and aggression read as aggression; profanity and rude as themselves; anything else as none |
| AiModule.ActionOf | app/services/ai_module.py:406-417 | the action table's keys, with none/allow as no action and strike/delete_strike/admin_alert as a strike |
| AiModule.ParseModerationResponse | app/services/ai_module.py:391-427 | violation from the lowered label; severity clamped to 0..3 and confidence to [0, 1], in-range values kept and out-of-range values sent to the nearer bound; a known action as mapped, an unknown one from the unclamped severity |
| AiModule.ParsedActionFollowsSeverity | app/services/ai_module.py:417-419 | an unknown action with severity in 0..3 agrees with the severity; a severity over 3 is reported as 3 with no action |
| AiModule.FoldCharFacts | app/services/ai_module.py:456-459 | a folded character is lower case, not `ё`, no look-alike, and a mask character exactly when the original was |
| AiModule.DropMasks | app/services/ai_module.py:459 | the result keeps only non-mask characters of the input, and is the input when it has none |
| AiModule.NormalizeForProfanityFacts | app/services/ai_module.py:456-460 | the normalised text has no mask, no `ё`, no capital, no look-alike, and normalising again changes nothing |
| AiModule.MaskCharacterIgnored | app/services/ai_module.py:459 | inserting a mask character anywhere does not change the normalised text |
| AiModule.DetectProfanityExtends | app/services/ai_module.py:463-465 | a root found in a text is found in any text containing it |
| AiModule.LocalModerationFacts | app/services/ai_module.py:446-453 | the action is always the one the severity maps to; profanity wins over rudeness; a violation is never allowed |
| AiModule.MaskedProfanityStruck | app/services/ai_module.py:446-460 | masking a profane word with a mask character still gets it struck |
| AiModule.TopicFilterFacts | app/services/ai_module.py:483-487 | a forbidden token refuses the text whatever allowed tokens it has |
| AiModule.TopicFilterIgnoresCase | app/services/ai_module.py:483-484 | the filter gives the same answer for the lowered text |
| AiModule.FinancialAdviceRefused | app/services/ai_module.py:46-55 | "Дай финансовый совет" is refused |
| AiModule.RetryFromFacts | app/services/ai_module.py:191-226 | at most `limit` attempts; every attempt before the last one made was retryable; early stops only on a non-retryable attempt; success needs a JSON object below 400; a 4xx ends with its status |
| AiModule.PostWithRetries | app/services/ai_module.py:191-226 | the loop gives the specified outcome and number of attempts |
| AiModule.PostWithRetriesPolicy | app/services/ai_module.py:191-226 | with `retries ≥ 0` between 1 and `retries + 1` attempts and never "unknown_error"; with negative retries no attempt and "unknown_error" |
| AiModule.AlertCooldownWindow | app/services/ai_module.py:146-154 | after an alert at `t` the key is silent until `t + 10 min` and open from then on; a dropped alert does not move that moment; other keys are unaffected |
| AiModule.AdminAlerts.MaybeAlertAdmin | app/services/ai_module.py:146-154 | a suppressed key changes nothing; otherwise the time is recorded; the notifier is called iff it is set and the key was not suppressed |
| QuizLoader.Letters | app/services/quiz_loader.py:37 | only upper-case column letters remain |
| QuizLoader.ColumnIndex | app/services/quiz_loader.py:36-41 | the loop computes the bijective base-26 value of the letters |
| QuizLoader.ColumnName | app/services/quiz_loader.py:36-41 | every positive column number has a non-empty letter name |
| QuizLoader.ColumnNameValue | app/services/quiz_loader.py:36-41 | the name of column `n` reads back as `n` |
| QuizLoader.ColumnValueName | app/services/quiz_loader.py:36-41 | every letter run is the name of its value (the index is a bijection onto positive numbers) |
| QuizLoader.ColumnIndexExamples | app/services/quiz_loader.py:36-41 | A=1, Z=26, AA=27, B7=2, ab12=28 |
| QuizLoader.ReadRowValues | app/services/quiz_loader.py:59-71 | the cell loop builds the row's column dictionary, later cells overriding |
| QuizLoader.ReadQuestions | app/services/quiz_loader.py:57-80 | the row loop skips the header row and keeps the pairs of the kept rows in order |
| QuizLoader.RowValuesCollapsed | app/services/quiz_loader.py:71 | every stored cell value has its whitespace collapsed |
| QuizLoader.KeptPairsIff | app/services/quiz_loader.py:57-80 | a pair is read exactly when it is the pair of a kept row |
| QuizLoader.KeptRowFacts | app/services/quiz_loader.py:71-79 | a read pair has a non-empty question and answer, is not the "вопрос/ответ" header, and is collapsed |
| QuizLoader.SplitBar | app/services/quiz_loader.py:384 | splitting on the bar character gives at least one part |
| QuizLoader.SplitJoinBar | app/services/quiz_loader.py:99 | splitting bar-joined parts without bars gives the parts back |
| QuizLoader.BuildDoneMessage | app/services/quiz_loader.py:90-99 | the parts loop builds the DONE message (bare "DONE" without questions) |
| QuizLoader.LoadQuestionsFromXlsx | app/services/quiz_loader.py:83-99 | the reading notice, then a bare DONE for a missing file, else the DONE message of the read questions |
| QuizLoader.CollectQuestions | app/services/quiz_loader.py:377-388 | the nested loop collects the specified pairs |
| QuizLoader.AppendPairs | app/services/quiz_loader.py:385-386 | the inner loop appends the fields from index 1 on, taken two by two, a trailing single field dropped |
| QuizLoader.DoneMessageRoundTrip | app/services/quiz_loader.py:83-99 | collecting the loader's messages gives back the questions read when no field contains a bar; a bare DONE gives none |
| QuizLoader.SaveQuestionsToDb | app/services/quiz_loader.py:391-411 | the added rows are the first question of each normalised text not already stored, in order, and their number is returned |
| QuizLoader.DedupFresh | app/services/quiz_loader.py:401-407 | an added question is from the batch and its normalised text was not stored |
| QuizLoader.DedupDistinct | app/services/quiz_loader.py:401-407 | no two added questions share a normalised text |
| QuizLoader.DedupKeys | app/services/quiz_loader.py:401-407 | the added normalised texts are exactly the batch's texts minus the stored ones |
| QuizLoader.SaveAgainAddsNothing | app/services/quiz_loader.py:391-411 | saving the same batch again adds nothing |
| QuizLoader.NothingNewAddsNothing | app/services/quiz_loader.py:401-403 | a batch whose texts are all stored adds nothing |
| Flood.Evict | app/services/flood.py:24-25 | the eviction result is no longer than the queue and starts at or after the cutoff |
| Flood.EvictSuffix | app/services/flood.py:23-25 | eviction drops only from the front and only entries strictly older than the cutoff |
| Flood.EvictOrdered | app/services/flood.py:23-25 | on an ordered queue eviction keeps exactly the entries at or after the cutoff, in order |
| Flood.FloodTracker.constructor | app/services/flood.py:12-15 | limit and window as given, no queues |
| Flood.FloodTracker.Register | app/services/flood.py:17-26 | the pair's queue gets the time and loses its stale front; other pairs' queues unchanged; the answer is the new length |
| Flood.RegisterCountsItself | app/services/flood.py:22-26 | with a non-negative window the new time is never evicted, so the count is at least 1 |
| Flood.RegisterCountsWindow | app/services/flood.py:23-26 | with times in order the count is the number of times in `[t - window, t]` and the queue stays ordered |
| AiUsageQuota.GetUsageStats | app/services/ai_usage.py:36-40 | zeros for a missing row; never negative on valid counters |
| AiUsageQuota.CanConsumeAiIff | app/services/ai_usage.py:43-58 | denied for requests iff a row exists at the request limit; denied for tokens iff under the request limit with a positive token limit reached; allowed otherwise, and always without a row |
| AiUsageQuota.NoRowAllowed | app/services/ai_usage.py:51-53 | a day without usage is allowed whatever the limits |
| AiUsageQuota.AfterUsageMonotone | app/services/ai_usage.py:69-70 | requests +1 exactly, tokens + max(0, tokens), never decreasing |
| AiUsageQuota.RequestLimitSticks | app/services/ai_usage.py:54-55 | once at the request limit, more usage keeps the day refused for requests |
| AiUsageQuota.ResetRowsFacts | app/services/ai_usage.py:76-82 | resetting all empties the table; resetting a chat removes exactly its rows, keeps the rest, and re-allows it |
| AiUsageQuota.TodayRowsFacts | app/services/ai_usage.py:85-89 | only today's rows remain, and today's stats and quota answers are unchanged |
| AiUsageQuota.AiUsageTable.GetOrCreateUsage | app/services/ai_usage.py:21-33 | the existing row, or a stored new zero row |
| AiUsageQuota.AiUsageTable.AddUsage | app/services/ai_usage.py:61-73 | the row (created when missing) becomes the row after usage; the answer is its counters |
| AiUsageQuota.AiUsageTable.ResetAiUsage | app/services/ai_usage.py:76-82 | the kept rows are the reset rows; the answer is the number deleted |
| AiUsageQuota.AiUsageTable.ClearOldUsage | app/services/ai_usage.py:85-89 | only today's rows are kept; the answer is the number deleted |
| Strikes.Oldest | app/services/strikes.py:18-23 | the minimum is one of the times and no later than any |
| Strikes.AddStrikeCount | app/services/strikes.py:25-40 | the count is at least 1; 1 after an expiry; one more than before otherwise |
| Strikes.AfterStrikeRecent | app/services/strikes.py:12-31 | with no future strikes, every strike after an add lies within 30 days of now |
| Strikes.ExpiryBoundary | app/services/strikes.py:25 | a strike more than 30 days old resets; one exactly 30 days old does not |
| Strikes.StrikeTable.AddStrike | app/services/strikes.py:15-40 | the pair's strikes become the expired-or-kept strikes plus one at now; other pairs untouched; the answer is the new count |
| Strikes.StrikeTable.ClearStrikes | app/services/strikes.py:43-48 | the pair has no strikes; other pairs untouched |
| TopicStats.Truncate | app/services/topic_stats.py:34 | a prefix of at most 200 characters, the message itself when short enough |
| TopicStats.BumpedFacts | app/services/topic_stats.py:24-34 | a new row counts 1, an existing one +1; a non-empty message is stored cut to 200; a missing or empty message keeps the stored one |
| TopicStats.TopicStatsTable.BumpTopicStat | app/services/topic_stats.py:10-35 | the key's row becomes the bumped row; other rows unchanged |
| TopicStats.TopicStatsTable.GetDailyStats | app/services/topic_stats.py:38-45 | exactly the rows of the chat and day, each once with its stored counters, from most to fewest messages |

## Left out

- Characters: `str.lower`, `\w` and `\s` follow Python on ASCII, the Latin-1 letters and the Cyrillic letters `Ѐ`–`џ` (U+0400–U+045F); other scripts are treated as non-letters with no case.
- Text.Lower: the case pairs of the extended Cyrillic range U+0460–U+04FF (`Ѡ`→`ѡ`, `Ґ`→`ґ`, `Ӏ`→`ӏ` and the rest) are not lowered; those characters are word characters but keep their case.
- Text.IsWordChar: the Latin-1 characters `ª`, `µ`, `º`, `²`, `³`, `¹` and `¼`–`¾`, which Python's `\w` accepts, are treated as non-word characters.
- QuizLoader.Letters: only ASCII letters are column letters; `str.isalpha` also accepts other letters, which no spreadsheet cell reference contains.
- AiModule.DropMasks: the mask class is the regex's whitespace, `-`, `_`, `.`, `*` and `/`, with whitespace as in `Text.IsSpace`.
- Floats become exact reals. The ratio thresholds 0.8 and 0.3 are compared exactly, which can differ from binary floating point only for word counts far beyond real answers.
- AiModule.ParseQuizAnswerResponse and AiModule.ParseModerationResponse: the JSON value coercions `bool()`, `int()`, `float()` and `str()` are not modelled. Reply fields are typed and either present or missing, and a value that would raise in Python is outside the model.
- Reason and message strings: texts sent to users and admins are not modelled. Decisions and errors are datatype values; only the reason strings of the quiz judge are kept.
- The XML and ZIP reading of the spreadsheet and the shared-strings lookup are not modelled. Rows arrive as cells with resolved values.
- Web scraping loaders (quizvopros, gotquestions) and `auto_load_quiz_questions` are not part of this model.
- I/O and scheduling: asyncio sleeps, task creation and cancellation, and Telegram delivery are left out. A timeout is an event carrying its captured start time; the break continuation is a separate event. In the source an answer accepted during the break cancels the pending task through `_cancel_timeout`, so the continuation never runs. The model does not tie the continuation to that task, so it admits a continuation after an accepted answer, which asks a second question in the same round.
- Clocks are parameters (`now`, `today`). Randomness is a choice of any eligible question or any deck card. `updated_at` of `ai_usage` is not modelled.
- Network and database access are left out: the HTTP call is a sequence of attempt results, and SQLAlchemy sessions, commits and flushes become direct updates of the maps.
- `mask_personal_data`, `build_local_assistant_reply`, `_set_last_error`, the runtime status and the daily summary are not modelled. Neither are leaderboards, `build_session_stats` text, blackjack state JSON and the games functions outside the rules above.
- QuizService.WinnersFromResults: the winners are a set; the list order (the tally's insertion order) is not kept.
- QuizLoader.SaveQuestionsToDb: `existing.add(question)` in the source has no effect on the result and is not modelled.
- Whole-second times: the source compares `datetime` differences, which carry microseconds, and the model compares whole seconds. This applies to the strike expiry (`Strikes`), the blackjack timeout (`Games.IsGameTimedOut`), the daily coin-grant window (`Games.CanGrantCoins`, `Games.UserStatsTable.RegisterCoinGrant`), the flood window (`Flood.FloodTracker.Register`) and the admin-alert cooldown (`AiModule.AdminAlerts.MaybeAlertAdmin`).
- AiModule.FinancialAdviceRefused is the one concrete-text example; other concrete strings are covered by the general lemmas only.

## Findings

| source | as written | input that shows it | evidently intended | confidence | as-written member | corrected member |
|---|---|---|---|---|---|---|
| app/handlers/quiz.py:171-197 | on a live timeout the answer is revealed and the break begins, but `current_question_id` stays set | a question times out and its answer is posted; during the 60-second break a player types that answer; `check_quiz_answer` accepts it and awards a point | once the answer is revealed the question should stop being current, as after an accepted answer (quiz.py:358-359) | not executed | QuizRounds.RevealedAnswerScoresAsWritten | QuizRounds.RevealedAnswerRejected |
