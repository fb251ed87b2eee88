/**
 * The round bookkeeping of app/handlers/quiz.py as a sequential event machine: a quiz
 * starts, answers arrive, a question's timeout fires carrying the `question_started_at`
 * snapshot it captured, the break before the next question ends, an admin awards a
 * point, and the quiz finishes. Pending timeouts are tokens holding their snapshot;
 * sleeping, task scheduling and message delivery are not modelled.
 */
module QuizRounds {
  import opened Wrappers
  import QuizMatch
  import Games
  import QuizService

  type Scope = QuizService.Scope
  type Tally = QuizService.Tally

  /** The tally after one more point for `userId`, recorded under `name`: that user's
      points go up by exactly one (from zero when absent), everyone else's stay. */
  function Credit(tally: Tally, userId: int, name: string): (t: Tally)
    ensures userId in t && t[userId] == (name, (if userId in tally then tally[userId].1 else 0) + 1)
    ensures forall u :: u != userId ==> (u in t <==> u in tally)
    ensures forall u :: u != userId && u in tally ==> t[u] == tally[u]
  {
    tally[userId := (name, (if userId in tally then tally[userId].1 else 0) + 1)]
  }

  /** The points a user holds in a tally. */
  function PointsOf(tally: Tally, userId: int): int {
    if userId in tally then tally[userId].1 else 0
  }

  /** Crediting a user makes them a winner whenever they were one before, or were one
      point behind the top: the greatest score can only be reached, never skipped. */
  lemma {:induction false} CreditKeepsLeader(tally: Tally, userId: int, name: string)
    requires forall v :: v in tally ==> tally[v].1 <= PointsOf(tally, userId) + 1
    ensures (userId, name, PointsOf(tally, userId) + 1) in QuizService.WinnersFromResults(Credit(tally, userId, name))
  {
    var t := Credit(tally, userId, name);
    forall v | v in t ensures t[v].1 <= t[userId].1 {
      if v != userId {
        assert v in tally;
      }
    }
    assert QuizService.IsTop(t, userId);
  }

  /** The `user_stats` row of winner `w` in the chat after `award_winner_bonus_coins`
      with the tally's name: the stored row, or a new one under that name, renamed when
      the name is non-empty, with the bonus added to its coins. */
  function BonusRow(rows: map<(int, int), Games.UserStat>, w: (int, string, int), chatId: int): Games.UserStat {
    var b := if (w.0, chatId) in rows then rows[(w.0, chatId)] else Games.NewUserStat(Some(w.1));
    (if Games.IsName(Some(w.1)) then b.(displayName := Some(w.1)) else b).(coins := b.coins + QuizService.WinnerCoinsBonus)
  }

  /** Winners as `winners_from_results` returns them: one entry per user. */
  predicate OnePerUser(winners: set<(int, string, int)>) {
    forall w, w' :: w in winners && w' in winners && w.0 == w'.0 ==> w == w'
  }

  /** The winners' bonus as a change of the `user_stats` rows: every winner's row in the
      chat is its `BonusRow` (former coins plus the bonus, renamed to the tally's name,
      other columns kept), every other row is as it was, and no row appears for a user
      who did not win. */
  predicate BonusPaid(before: map<(int, int), Games.UserStat>, after: map<(int, int), Games.UserStat>, winners: set<(int, string, int)>, chatId: int) {
    && (forall w :: w in winners ==>
         (w.0, chatId) in after && after[(w.0, chatId)] == BonusRow(before, w, chatId))
    && (forall key :: key in before && (forall w :: w in winners ==> key != (w.0, chatId)) ==>
         key in after && after[key] == before[key])
    && (forall key :: key in after ==> key in before || exists w :: w in winners && key == (w.0, chatId))
  }

  /** The bonus loop part-way: the winners in `done` hold their `BonusRow`, and every
      key that belongs to no winner in `done` is present and valued exactly as before. */
  ghost predicate BonusPaidSoFar(before: map<(int, int), Games.UserStat>, after: map<(int, int), Games.UserStat>, done: set<(int, string, int)>, chatId: int) {
    && (forall w :: w in done ==>
         (w.0, chatId) in after && after[(w.0, chatId)] == BonusRow(before, w, chatId))
    && (forall key :: (forall w :: w in done ==> key != (w.0, chatId)) ==>
         (key in after <==> key in before) && (key in after ==> after[key] == before[key]))
  }

  /** One turn of the bonus loop: paying a winner not yet paid extends the paid set. */
  lemma BonusStep(before: map<(int, int), Games.UserStat>, mid: map<(int, int), Games.UserStat>,
                  winners: set<(int, string, int)>, done: set<(int, string, int)>, w: (int, string, int), chatId: int)
    requires OnePerUser(winners) && done <= winners && w in winners && w !in done
    requires BonusPaidSoFar(before, mid, done, chatId)
    ensures BonusPaidSoFar(before, mid[(w.0, chatId) := BonusRow(mid, w, chatId)], done + {w}, chatId)
  {
    var key := (w.0, chatId);
    forall v | v in done ensures key != (v.0, chatId) {
      assert v != w;
    }
    assert (key in mid <==> key in before) && (key in mid ==> mid[key] == before[key]);
  }

  /** What a timeout does when it fires. */
  datatype TimeoutOutcome =
    | Stale            // the snapshot no longer matches: nothing happens
    | NoActiveSession  // the quiz is over already
    | Finished         // the last question timed out and the quiz was finished
    | Break            // the answer was revealed and the break before the next question begins

  /** What the end of the break does. */
  datatype BreakOutcome =
    | NoQuiz          // the quiz is over already
    | Exhausted       // no question is left, so the quiz was finished
    | Asked(qid: int) // the next question was asked and its timeout armed

  /** The quiz handler's per-scope registries, and the database it works on. */
  class QuizRounds {
    const db: QuizService.QuizDb
    /** `settings.forum_chat_id`. */
    const forumChatId: int
    /** `settings.topic_games`; answers are only taken when it is set. */
    const topicGames: Option<int>
    /** `_timeout_tasks`: the pending timeout of a scope, by the snapshot it captured. */
    var timeoutTasks: map<Scope, Option<int>>
    /** `_question_started_at`. */
    var questionStartedAt: map<Scope, Option<int>>
    /** `_session_results`: each scope's tally for the running quiz. */
    var sessionResults: map<Scope, Tally>

    /** The database invariant, and: a registered timeout is never stale, since every
        change of a scope's start time replaces or cancels the scope's timeout. */
    ghost predicate Valid()
      reads this, db
    {
      && db.Valid()
      && forall s :: s in timeoutTasks ==> timeoutTasks[s] == StartedAt(s)
    }

    constructor (db: QuizService.QuizDb, forumChatId: int, topicGames: Option<int>)
      requires db.Valid()
      ensures this.db == db && this.forumChatId == forumChatId && this.topicGames == topicGames
      ensures timeoutTasks == map[] && questionStartedAt == map[] && sessionResults == map[]
      ensures Valid()
    {
      this.db := db;
      this.forumChatId := forumChatId;
      this.topicGames := topicGames;
      timeoutTasks := map[];
      questionStartedAt := map[];
      sessionResults := map[];
    }

    /** `_question_started_at.get(scope)`. */
    function StartedAt(scope: Scope): Option<int>
      reads this
    {
      if scope in questionStartedAt then questionStartedAt[scope] else None
    }

    /** `_session_results.get(scope, {})`. */
    function TallyOf(scope: Scope): Tally
      reads this
    {
      if scope in sessionResults then sessionResults[scope] else map[]
    }

    /** The scope answers are read in. */
    function GamesScope(): Scope
      requires topicGames.Some?
      reads this
    {
      (forumChatId, topicGames.value)
    }

    /** Whether `check_quiz_answer` takes a message: a non-command text, in the games
        topic, while a quiz is active there and its current question accepts the text. */
    predicate AnswerAccepted(text: string)
      reads this, db
    {
      && text != "" && text[0] != '/' && topicGames.Some?
      && var active := db.ActiveSession(GamesScope());
      && active.Some?
      && var question := db.CurrentQuestion(active.value);
      && question.Some?
      && QuizMatch.CheckAnswer(question.value.answer, text)
    }

    /** What finishing the quiz of `scope` with tally `tally` did to the database: the
        session is inactive with no current question, every question it asked is deleted,
        and the tally's winners have the bonus in the chat. */
    twostate predicate QuizFinished(scope: Scope, tally: Tally)
      reads this, db, db.userStats
    {
      && scope in old(db.sessions)
      && db.sessions == old(db.sessions)[scope := old(db.sessions)[scope].(isActive := false, currentQuestionId := None)]
      && db.questions == old(db.questions) - QuizService.AskedIds(old(db.sessions)[scope])
      && BonusPaid(old(db.userStats.rows), db.userStats.rows, QuizService.WinnersFromResults(tally), scope.0)
    }

    /** `_cancel_timeout`: the scope's pending timeout, if any, is dropped. */
    method CancelTimeout(scope: Scope)
      requires Valid()
      modifies this
      ensures timeoutTasks == old(timeoutTasks) - {scope}
      ensures questionStartedAt == old(questionStartedAt) && sessionResults == old(sessionResults)
      ensures Valid()
    {
      timeoutTasks := timeoutTasks - {scope};
    }

    /** `_start_timeout`: any pending timeout of the scope is cancelled, the start time
        is recorded, and one new timeout is registered with that start time as its
        snapshot, so a scope never has two. */
    method StartTimeout(scope: Scope, startedAt: Option<int>)
      requires Valid()
      modifies this
      ensures timeoutTasks == old(timeoutTasks)[scope := startedAt]
      ensures questionStartedAt == old(questionStartedAt)[scope := startedAt]
      ensures sessionResults == old(sessionResults)
      ensures Valid()
    {
      CancelTimeout(scope);
      questionStartedAt := questionStartedAt[scope := startedAt];
      timeoutTasks := timeoutTasks[scope := startedAt];
    }

    /** The bonus loop of `_finish_quiz_and_notify`: every winner's `user_stats` row in the
        chat gains the bonus, and no other row changes. */
    method AwardBonuses(winners: set<(int, string, int)>, chatId: int)
      requires OnePerUser(winners)
      modifies db.userStats
      ensures forall w :: w in winners ==> (w.0, chatId) in db.userStats.rows
      ensures forall w :: w in winners ==>
        db.userStats.rows[(w.0, chatId)] == BonusRow(old(db.userStats.rows), w, chatId)
      ensures forall key :: key in old(db.userStats.rows) && (forall w :: w in winners ==> key != (w.0, chatId)) ==>
        key in db.userStats.rows && db.userStats.rows[key] == old(db.userStats.rows)[key]
      ensures forall key :: key in db.userStats.rows ==>
        key in old(db.userStats.rows) || exists w :: w in winners && key == (w.0, chatId)
    {
      var remaining := winners;
      while remaining != {}
        invariant remaining <= winners
        invariant BonusPaidSoFar(old(db.userStats.rows), db.userStats.rows, winners - remaining, chatId)
        decreases |remaining|
      {
        if forall w :: w !in remaining {
          assert false;
        }
        var w :| w in remaining;
        ghost var mid := db.userStats.rows;
        var _ := db.AwardWinnerBonusCoins(w.0, chatId, Some(w.1));
        BonusStep(old(db.userStats.rows), mid, winners, winners - remaining, w, chatId);
        assert winners - (remaining - {w}) == (winners - remaining) + {w};
        remaining := remaining - {w};
      }
    }

    /** `_finish_quiz_and_notify`: the session ends, the scope's tally is removed, and every
        user tied at the top of it gets the winners' bonus in the chat. */
    method FinishQuizAndNotify(scope: Scope)
      requires Valid() && scope in db.sessions
      modifies this, db, db.userStats
      ensures QuizFinished(scope, old(TallyOf(scope)))
      ensures db.usedTexts == old(db.usedTexts) && db.points == old(db.points)
      ensures sessionResults == old(sessionResults) - {scope}
      ensures timeoutTasks == old(timeoutTasks) && questionStartedAt == old(questionStartedAt)
      ensures Valid()
    {
      db.EndQuizSession(scope);
      var results := TallyOf(scope);
      sessionResults := sessionResults - {scope};
      var winners := QuizService.WinnersFromResults(results);
      var _ := QuizService.WinnersFacts(results);
      AwardBonuses(winners, scope.0);
    }

    /** Finishing from a timeout or when the pool runs dry: `_finish_quiz_and_notify`
        followed by `_cancel_timeout`. */
    method FinishAndCancel(scope: Scope)
      requires Valid() && scope in db.sessions
      modifies this, db, db.userStats
      ensures QuizFinished(scope, old(TallyOf(scope)))
      ensures db.usedTexts == old(db.usedTexts) && db.points == old(db.points)
      ensures sessionResults == old(sessionResults) - {scope}
      ensures timeoutTasks == old(timeoutTasks) - {scope} && questionStartedAt == old(questionStartedAt)
      ensures Valid()
    {
      FinishQuizAndNotify(scope);
      CancelTimeout(scope);
    }

    /** Asking a question: `set_current_question` followed by `_start_timeout` with the
        question's start time. */
    method AskQuestion(scope: Scope, qid: int, now: int)
      requires Valid() && scope in db.sessions && qid in db.questions
      modifies this, db
      ensures var s := old(db.sessions)[scope];
        db.sessions == old(db.sessions)[scope := s.(
          currentQuestionId := Some(qid),
          questionNumber := s.questionNumber + 1,
          questionStartedAt := Some(now),
          usedQuestionIds := QuizService.AppendIfAbsent(s.usedQuestionIds, qid))]
      ensures db.usedTexts == old(db.usedTexts) + {QuizService.QuestionKey(old(db.questions)[qid])}
      ensures db.questions == old(db.questions) && db.points == old(db.points) && db.userStats.rows == old(db.userStats.rows)
      ensures timeoutTasks == old(timeoutTasks)[scope := Some(now)]
      ensures questionStartedAt == old(questionStartedAt)[scope := Some(now)]
      ensures sessionResults == old(sessionResults)
      ensures Valid()
    {
      db.SetCurrentQuestion(scope, qid, now);
      StartTimeout(scope, Some(now));
    }

    /** The bookkeeping of an accepted answer before the finish-or-advance step: the
        timeout is cancelled, the start time cleared, and the user credited in the
        database and in the tally. */
    method CreditAnswer(scope: Scope, userId: int, displayName: string)
      requires Valid()
      modifies this, db
      ensures timeoutTasks == old(timeoutTasks) - {scope}
      ensures questionStartedAt == old(questionStartedAt)[scope := None]
      ensures sessionResults == old(sessionResults)[scope := Credit(old(TallyOf(scope)), userId, displayName)]
      ensures db.points == old(db.points)[(userId, forumChatId) := QuizService.PointAwarded(old(db.points), (userId, forumChatId), Some(displayName))]
      ensures db.points[(userId, forumChatId)].totalPoints ==
        (if (userId, forumChatId) in old(db.points) then old(db.points)[(userId, forumChatId)].totalPoints else 0) + 1
      ensures db.sessions == old(db.sessions) && db.questions == old(db.questions) && db.usedTexts == old(db.usedTexts)
      ensures db.userStats.rows == old(db.userStats.rows)
      ensures Valid()
    {
      CancelTimeout(scope);
      questionStartedAt := questionStartedAt[scope := None];
      var _ := db.AwardPoint(userId, forumChatId, Some(displayName));
      sessionResults := sessionResults[scope := Credit(TallyOf(scope), userId, displayName)];
    }

    /** `_start_quiz`: the scope's tally is emptied first, even when the start is then
        refused; when the launch gate allows, a new session asks a question from the pool
        and its timeout is armed. The gate's ten available questions mean a question is
        always found. */
    method StartQuiz(chatId: int, topicId: int, now: int) returns (asked: Option<int>)
      requires Valid()
      modifies this, db
      ensures sessionResults == old(sessionResults)[(chatId, topicId) := map[]]
      ensures asked.Some? <==> old(db.CanStartQuiz((chatId, topicId))) == QuizService.Allowed
      ensures asked.None? ==>
        && db.sessions == old(db.sessions) && db.questions == old(db.questions) && db.usedTexts == old(db.usedTexts)
        && timeoutTasks == old(timeoutTasks) && questionStartedAt == old(questionStartedAt)
      ensures asked.Some? ==>
        && asked.value in old(QuizService.Available(db.questions, db.usedTexts))
        && db.sessions == old(db.sessions)[(chatId, topicId) := QuizService.QuizSession(asked, 1, Some(now), true, [asked.value])]
        && db.usedTexts == old(db.usedTexts) + {QuizService.QuestionKey(old(db.questions)[asked.value])}
        && timeoutTasks == old(timeoutTasks)[(chatId, topicId) := Some(now)]
        && questionStartedAt == old(questionStartedAt)[(chatId, topicId) := Some(now)]
      ensures db.questions == old(db.questions) && db.points == old(db.points)
      ensures Valid()
    {
      var scope := (chatId, topicId);
      sessionResults := sessionResults[scope := map[]];
      if db.CanStartQuiz(scope) != QuizService.Allowed {
        return None;
      }
      QuizService.FreshSessionPool(db.questions, db.usedTexts);
      var pool := QuizService.Available(db.questions, db.usedTexts);
      db.StartQuizSession(scope);
      assert |pool| >= QuizService.QuestionsCount;
      var qid := db.GetRandomQuestion(db.sessions[scope]);
      assert qid.Some? by {
        assert pool != {};
      }
      AskQuestion(scope, qid.value, now);
      asked := qid;
    }

    /** `_handle_timeout` as the source has it: a timeout whose snapshot no longer matches
        the scope's start time does nothing; otherwise the quiz is finished after its last
        question, and else the break begins — with the revealed question still current. */
    method HandleTimeoutAsWritten(scope: Scope, snapshot: Option<int>) returns (outcome: TimeoutOutcome)
      requires Valid()
      modifies this, db, db.userStats
      ensures outcome == Stale <==> old(StartedAt(scope)) != snapshot
      ensures outcome == NoActiveSession <==> old(StartedAt(scope)) == snapshot && old(db.ActiveSession(scope)).None?
      ensures outcome == Finished <==>
        old(StartedAt(scope)) == snapshot && old(db.ActiveSession(scope)).Some? && QuizService.IsQuizFinished(old(db.ActiveSession(scope)).value)
      ensures outcome != Finished ==>
        && db.sessions == old(db.sessions) && db.questions == old(db.questions) && db.usedTexts == old(db.usedTexts)
        && db.points == old(db.points) && db.userStats.rows == old(db.userStats.rows)
        && timeoutTasks == old(timeoutTasks) && questionStartedAt == old(questionStartedAt) && sessionResults == old(sessionResults)
      ensures outcome == Finished ==>
        && QuizFinished(scope, old(TallyOf(scope)))
        && db.usedTexts == old(db.usedTexts) && db.points == old(db.points)
        && sessionResults == old(sessionResults) - {scope}
        && timeoutTasks == old(timeoutTasks) - {scope}
        && questionStartedAt == old(questionStartedAt)
      ensures Valid()
    {
      if StartedAt(scope) != snapshot {
        return Stale;
      }
      var active := db.ActiveSession(scope);
      if active.None? {
        return NoActiveSession;
      }
      if QuizService.IsQuizFinished(active.value) {
        FinishAndCancel(scope);
        return Finished;
      }
      return Break;
    }

    /** `_handle_timeout` as intended: as written, but when the break begins the revealed
        question is no longer current, as after an accepted answer, so that no answer
        is accepted until the next question is asked. */
    method HandleTimeout(scope: Scope, snapshot: Option<int>) returns (outcome: TimeoutOutcome)
      requires Valid()
      modifies this, db, db.userStats
      ensures outcome == Stale <==> old(StartedAt(scope)) != snapshot
      ensures outcome == Break <==>
        old(StartedAt(scope)) == snapshot && old(db.ActiveSession(scope)).Some? && !QuizService.IsQuizFinished(old(db.ActiveSession(scope)).value)
      ensures outcome == Stale || outcome == NoActiveSession ==>
        && db.sessions == old(db.sessions) && db.questions == old(db.questions) && db.usedTexts == old(db.usedTexts)
        && db.points == old(db.points) && db.userStats.rows == old(db.userStats.rows)
        && timeoutTasks == old(timeoutTasks) && questionStartedAt == old(questionStartedAt) && sessionResults == old(sessionResults)
      ensures outcome == Break ==>
        && scope in old(db.sessions)
        && db.sessions == old(db.sessions)[scope := old(db.sessions)[scope].(currentQuestionId := None, questionStartedAt := None)]
        && db.questions == old(db.questions) && db.usedTexts == old(db.usedTexts) && db.points == old(db.points)
        && db.userStats.rows == old(db.userStats.rows)
        && timeoutTasks == old(timeoutTasks) && questionStartedAt == old(questionStartedAt) && sessionResults == old(sessionResults)
      ensures outcome == Finished ==>
        && QuizFinished(scope, old(TallyOf(scope)))
        && db.usedTexts == old(db.usedTexts) && db.points == old(db.points)
        && sessionResults == old(sessionResults) - {scope}
        && timeoutTasks == old(timeoutTasks) - {scope}
        && questionStartedAt == old(questionStartedAt)
      ensures Valid()
    {
      outcome := HandleTimeoutAsWritten(scope, snapshot);
      if outcome == Break {
        db.ClearCurrentQuestion(scope);
      }
    }

    /** `_send_next_question_after_break`: with the quiz still active, the next eligible
        question is asked and its timeout armed; when none is left the quiz is finished. */
    method SendNextQuestionAfterBreak(scope: Scope, now: int) returns (outcome: BreakOutcome)
      requires Valid()
      modifies this, db, db.userStats
      ensures outcome == NoQuiz <==> old(db.ActiveSession(scope)).None?
      ensures outcome == NoQuiz ==>
        && db.sessions == old(db.sessions) && db.questions == old(db.questions) && db.usedTexts == old(db.usedTexts)
        && db.points == old(db.points) && db.userStats.rows == old(db.userStats.rows)
        && timeoutTasks == old(timeoutTasks) && questionStartedAt == old(questionStartedAt) && sessionResults == old(sessionResults)
      ensures outcome == Exhausted ==>
        && scope in old(db.sessions)
        && QuizService.Eligible(old(db.questions), old(db.usedTexts), old(db.sessions)[scope].usedQuestionIds) == {}
        && QuizFinished(scope, old(TallyOf(scope)))
        && db.usedTexts == old(db.usedTexts) && db.points == old(db.points)
        && sessionResults == old(sessionResults) - {scope}
        && timeoutTasks == old(timeoutTasks) - {scope} && questionStartedAt == old(questionStartedAt)
      ensures outcome.Asked? ==>
        && scope in old(db.sessions)
        && var s := old(db.sessions)[scope];
        && outcome.qid in QuizService.Eligible(old(db.questions), old(db.usedTexts), s.usedQuestionIds)
        && db.sessions == old(db.sessions)[scope := s.(
             currentQuestionId := Some(outcome.qid),
             questionNumber := s.questionNumber + 1,
             questionStartedAt := Some(now),
             usedQuestionIds := s.usedQuestionIds + [outcome.qid])]
        && db.usedTexts == old(db.usedTexts) + {QuizService.QuestionKey(old(db.questions)[outcome.qid])}
        && db.questions == old(db.questions) && db.points == old(db.points) && db.userStats.rows == old(db.userStats.rows)
        && timeoutTasks == old(timeoutTasks)[scope := Some(now)]
        && questionStartedAt == old(questionStartedAt)[scope := Some(now)]
        && sessionResults == old(sessionResults)
      ensures Valid()
    {
      var active := db.ActiveSession(scope);
      if active.None? {
        return NoQuiz;
      }
      var qid := db.GetRandomQuestion(active.value);
      if qid.None? {
        FinishAndCancel(scope);
        return Exhausted;
      }
      AskQuestion(scope, qid.value, now);
      return Asked(qid.value);
    }

    /** What `check_quiz_answer` does with an accepted answer in `scope`: the timeout is
        cancelled and the start time cleared, so any timeout still on its way is stale;
        the user gets a persisted point and one more point in the tally. After the last
        question the quiz finishes; otherwise the question stops being current and the
        break begins. */
    method AcceptAnswer(scope: Scope, userId: int, displayName: string) returns (advance: bool)
      requires Valid() && scope in db.sessions
      modifies this, db, db.userStats
      ensures timeoutTasks == old(timeoutTasks) - {scope}
      ensures questionStartedAt == old(questionStartedAt)[scope := None]
      ensures db.points == old(db.points)[(userId, forumChatId) := QuizService.PointAwarded(old(db.points), (userId, forumChatId), Some(displayName))]
      ensures db.points[(userId, forumChatId)].totalPoints ==
        (if (userId, forumChatId) in old(db.points) then old(db.points)[(userId, forumChatId)].totalPoints else 0) + 1
      ensures db.usedTexts == old(db.usedTexts)
      ensures advance <==> !QuizService.IsQuizFinished(old(db.sessions)[scope])
      ensures advance ==>
        && sessionResults == old(sessionResults)[scope := Credit(old(TallyOf(scope)), userId, displayName)]
        && db.sessions == old(db.sessions)[scope := old(db.sessions)[scope].(currentQuestionId := None, questionStartedAt := None)]
        && db.questions == old(db.questions) && db.userStats.rows == old(db.userStats.rows)
      ensures !advance ==>
        && sessionResults == old(sessionResults) - {scope}
        && QuizFinished(scope, Credit(old(TallyOf(scope)), userId, displayName))
      ensures Valid()
    {
      var finished := QuizService.IsQuizFinished(db.sessions[scope]);
      CreditAnswer(scope, userId, displayName);
      if finished {
        FinishQuizAndNotify(scope);
        return false;
      }
      db.ClearCurrentQuestion(scope);
      advance := true;
    }

    /** `check_quiz_answer`: only a message the current question of the games topic accepts
        changes anything, and it is handled as `AcceptAnswer` says. */
    method CheckQuizAnswer(userId: int, displayName: string, text: string) returns (accepted: bool, advance: bool)
      requires Valid()
      modifies this, db, db.userStats
      ensures accepted == old(AnswerAccepted(text))
      ensures !accepted ==>
        && !advance
        && db.sessions == old(db.sessions) && db.questions == old(db.questions) && db.points == old(db.points)
        && db.usedTexts == old(db.usedTexts) && db.userStats.rows == old(db.userStats.rows)
        && timeoutTasks == old(timeoutTasks) && questionStartedAt == old(questionStartedAt) && sessionResults == old(sessionResults)
      ensures accepted ==> var scope := GamesScope();
        && timeoutTasks == old(timeoutTasks) - {scope}
        && questionStartedAt == old(questionStartedAt)[scope := None]
        && db.points == old(db.points)[(userId, forumChatId) := QuizService.PointAwarded(old(db.points), (userId, forumChatId), Some(displayName))]
        && db.points[(userId, forumChatId)].totalPoints ==
             (if (userId, forumChatId) in old(db.points) then old(db.points)[(userId, forumChatId)].totalPoints else 0) + 1
        && db.usedTexts == old(db.usedTexts)
        && scope in old(db.sessions)
        && (advance <==> !QuizService.IsQuizFinished(old(db.sessions)[scope]))
        && (advance ==>
             && sessionResults == old(sessionResults)[scope := Credit(old(TallyOf(scope)), userId, displayName)]
             && db.sessions == old(db.sessions)[scope := old(db.sessions)[scope].(currentQuestionId := None, questionStartedAt := None)]
             && db.questions == old(db.questions) && db.userStats.rows == old(db.userStats.rows))
        && (!advance ==>
             && sessionResults == old(sessionResults) - {scope}
             && QuizFinished(scope, Credit(old(TallyOf(scope)), userId, displayName)))
      ensures Valid()
    {
      if !AnswerAccepted(text) {
        return false, false;
      }
      accepted := true;
      advance := AcceptAnswer(GamesScope(), userId, displayName);
    }

    /** `add_quiz_point_admin` (`/bal`): the target gets a persisted point and one more
        point in the tally of the games topic, or of topic 0 when none is configured. */
    method AddQuizPointAdmin(targetUserId: int, displayName: string)
      requires Valid()
      modifies this, db
      ensures var key := (forumChatId, if topicGames.Some? then topicGames.value else 0);
        sessionResults == old(sessionResults)[key := Credit(old(TallyOf(key)), targetUserId, displayName)]
      ensures db.points == old(db.points)[(targetUserId, forumChatId) := QuizService.PointAwarded(old(db.points), (targetUserId, forumChatId), Some(displayName))]
      ensures db.points[(targetUserId, forumChatId)].totalPoints ==
        (if (targetUserId, forumChatId) in old(db.points) then old(db.points)[(targetUserId, forumChatId)].totalPoints else 0) + 1
      ensures db.sessions == old(db.sessions) && db.questions == old(db.questions)
      ensures db.usedTexts == old(db.usedTexts) && db.userStats.rows == old(db.userStats.rows)
      ensures timeoutTasks == old(timeoutTasks) && questionStartedAt == old(questionStartedAt)
      ensures Valid()
    {
      var _ := db.AwardPoint(targetUserId, forumChatId, Some(displayName));
      var key := (forumChatId, if topicGames.Some? then topicGames.value else 0);
      sessionResults := sessionResults[key := Credit(TallyOf(key), targetUserId, displayName)];
    }
  }

  /** The current question of the games scope, whose answer a timeout reveals, is
      accepted when retyped: it normalises to words and is not a command. */
  predicate RevealableQuestion(rounds: QuizRounds)
    reads rounds, rounds.db
  {
    && rounds.topicGames.Some?
    && var active := rounds.db.ActiveSession(rounds.GamesScope());
    && active.Some? && !QuizService.IsQuizFinished(active.value)
    && var question := rounds.db.CurrentQuestion(active.value);
    && question.Some?
    && QuizMatch.NormalizeWords(question.value.answer) != []
    && question.value.answer[0] != '/'
  }

  /** As written, a live timeout reveals the answer and leaves the question current, so
      whoever retypes the revealed answer during the break is credited with a point. */
  method RevealedAnswerScoresAsWritten(rounds: QuizRounds, userId: int, name: string) returns (accepted: bool)
    requires rounds.Valid() && RevealableQuestion(rounds)
    modifies rounds, rounds.db, rounds.db.userStats
    ensures accepted
  {
    var scope := rounds.GamesScope();
    var answer := rounds.db.CurrentQuestion(rounds.db.ActiveSession(scope).value).value.answer;
    QuizMatch.ExactAnswerAccepted(answer, answer);
    assert rounds.AnswerAccepted(answer);
    var outcome := rounds.HandleTimeoutAsWritten(scope, rounds.StartedAt(scope));
    assert outcome == Break;
    assert rounds.AnswerAccepted(answer) by {
      assert rounds.db.sessions == old(rounds.db.sessions) && rounds.db.questions == old(rounds.db.questions);
    }
    var advance;
    accepted, advance := rounds.CheckQuizAnswer(userId, name, answer);
  }

  /** With the corrected timeout, the same sequence credits nobody. */
  method RevealedAnswerRejected(rounds: QuizRounds, userId: int, name: string) returns (accepted: bool)
    requires rounds.Valid() && RevealableQuestion(rounds)
    modifies rounds, rounds.db, rounds.db.userStats
    ensures !accepted
  {
    var scope := rounds.GamesScope();
    var answer := rounds.db.CurrentQuestion(rounds.db.ActiveSession(scope).value).value.answer;
    var outcome := rounds.HandleTimeout(scope, rounds.StartedAt(scope));
    var advance;
    accepted, advance := rounds.CheckQuizAnswer(userId, name, answer);
  }
}
