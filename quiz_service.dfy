/**
 * The question bookkeeping of app/services/quiz.py: the question bank, the global
 * set of used question texts, the per-scope quiz session rows, the persisted quiz
 * points and the winners' bonus. A scope is a (chat id, topic id) pair. The question
 * bank is keyed by question id, the points by (user id, chat id), and the session
 * rows by scope rather than by their `id` column; times are whole seconds.
 */
module QuizService {
  import opened Wrappers
  import Text
  import Games

  /** `QUIZ_QUESTIONS_COUNT`: questions per quiz, and the least pool a quiz may start with. */
  const QuestionsCount := 10
  /** `QUIZ_WINNER_COINS_BONUS`. */
  const WinnerCoinsBonus := 50

  /** (chat id, topic id). */
  type Scope = (int, int)

  /** A `quiz_questions` row, without its id (the map key). */
  datatype QuizQuestion = QuizQuestion(question: string, answer: string)

  /** A `quiz_sessions` row. The used ids are kept as a list, which the source stores as JSON. */
  datatype QuizSession = QuizSession(
    currentQuestionId: Option<int>,
    questionNumber: int,
    questionStartedAt: Option<int>,
    isActive: bool,
    usedQuestionIds: seq<int>)

  /** A `quiz_user_stats` row. */
  datatype QuizUserStat = QuizUserStat(totalPoints: int, displayName: Option<string>)

  // ---------------------------------------------------------------------
  // The question pool
  // ---------------------------------------------------------------------

  /** The key of a question text in the global used set. */
  function QuestionKey(q: QuizQuestion): string {
    Text.NormalizeSpacing(q.question)
  }

  /** The questions whose text has not been used by any quiz (`get_available_questions_count`). */
  function Available(questions: map<int, QuizQuestion>, usedTexts: set<string>): set<int> {
    set id | id in questions && QuestionKey(questions[id]) !in usedTexts
  }

  /** The questions `get_random_question` may pick for a session: not yet asked in it,
      and with a text no quiz has used. */
  function Eligible(questions: map<int, QuizQuestion>, usedTexts: set<string>, usedIds: seq<int>): set<int> {
    set id | id in questions && id !in usedIds && QuestionKey(questions[id]) !in usedTexts
  }

  /** The questions sharing the text of question `qid`. */
  function SameText(questions: map<int, QuizQuestion>, qid: int): set<int>
    requires qid in questions
  {
    set id | id in questions && QuestionKey(questions[id]) == QuestionKey(questions[qid])
  }

  predicate Distinct(ids: seq<int>) {
    forall i, j :: 0 <= i < j < |ids| ==> ids[i] != ids[j]
  }

  /** The used-id update of `set_current_question`: the id is appended only when absent,
      so the list keeps its order, gains the id, and never holds it twice. */
  function AppendIfAbsent(ids: seq<int>, id: int): (r: seq<int>)
    ensures id in r && (forall x :: x in r <==> x in ids || x == id)
    ensures |ids| <= |r| <= |ids| + 1 && r[..|ids|] == ids
    ensures Distinct(ids) ==> Distinct(r)
  {
    if id in ids then ids else ids + [id]
  }

  /** A new session has asked nothing, so its eligible questions are exactly the available ones. */
  lemma FreshSessionPool(questions: map<int, QuizQuestion>, usedTexts: set<string>)
    ensures Eligible(questions, usedTexts, []) == Available(questions, usedTexts)
  {
  }

  /** Serving question `qid` (appending its id and marking its text used) removes from
      the session's pool exactly the questions with the same text, `qid` among them;
      and when `qid` was available, the number of available questions drops. */
  lemma {:induction false} ServingShrinksPool(questions: map<int, QuizQuestion>, usedTexts: set<string>, usedIds: seq<int>, qid: int)
    requires qid in questions
    ensures var texts, ids := usedTexts + {QuestionKey(questions[qid])}, AppendIfAbsent(usedIds, qid);
      && qid !in Eligible(questions, texts, ids)
      && Eligible(questions, texts, ids) == Eligible(questions, usedTexts, usedIds) - SameText(questions, qid)
      && Available(questions, texts) == Available(questions, usedTexts) - SameText(questions, qid)
      && (qid in Available(questions, usedTexts) ==> |Available(questions, texts)| < |Available(questions, usedTexts)|)
  {
    var texts, ids := usedTexts + {QuestionKey(questions[qid])}, AppendIfAbsent(usedIds, qid);
    assert Eligible(questions, texts, ids) == Eligible(questions, usedTexts, usedIds) - SameText(questions, qid);
    assert Available(questions, texts) == Available(questions, usedTexts) - SameText(questions, qid);
    if qid in Available(questions, usedTexts) {
      assert qid in SameText(questions, qid);
      assert Available(questions, texts) < Available(questions, usedTexts);
    }
  }

  /** Deleting questions whose texts are all used leaves the available pool as it was. */
  lemma {:induction false} DeletingSpentKeepsPool(questions: map<int, QuizQuestion>, usedTexts: set<string>, ids: set<int>)
    requires forall id :: id in ids && id in questions ==> QuestionKey(questions[id]) in usedTexts
    ensures Available(questions - ids, usedTexts) == Available(questions, usedTexts)
  {
    assert forall id :: id in Available(questions, usedTexts) ==> id !in ids;
  }

  // ---------------------------------------------------------------------
  // The launch gate
  // ---------------------------------------------------------------------

  /** The outcome of `can_start_quiz`; a refusal carries the pool size it reports. */
  datatype LaunchDecision = Allowed | AlreadyRunning | TooFewQuestions(available: nat)

  /** `can_start_quiz` on what it looks up: whether the scope has an active session,
      and how many questions are available. */
  function LaunchGate(active: bool, available: nat): (d: LaunchDecision) {
    if active then AlreadyRunning
    else if available < QuestionsCount then TooFewQuestions(available)
    else Allowed
  }

  /** The gate opens exactly when no quiz is running and at least ten questions are
      available; a running quiz is reported first; otherwise the refusal reports the pool. */
  lemma LaunchGateIff(active: bool, available: nat)
    ensures LaunchGate(active, available) == Allowed <==> !active && available >= QuestionsCount
    ensures LaunchGate(active, available) == AlreadyRunning <==> active
    ensures LaunchGate(active, available).TooFewQuestions? ==>
      LaunchGate(active, available).available == available < QuestionsCount
  {
  }

  /** `is_quiz_finished`. */
  predicate IsQuizFinished(s: QuizSession) {
    s.questionNumber >= QuestionsCount
  }

  // ---------------------------------------------------------------------
  // Winners
  // ---------------------------------------------------------------------

  /** The per-round tally of the quiz handler: user id to (display name, points). */
  type Tally = map<int, (string, int)>

  /** `uid` has no fewer points than anyone in the tally. */
  predicate IsTop(results: Tally, uid: int)
    requires uid in results
  {
    forall v :: v in results ==> results[v].1 <= results[uid].1
  }

  /** `winners_from_results`, as a set: the list order (the tally's insertion order) is not kept. */
  function WinnersFromResults(results: Tally): set<(int, string, int)> {
    set uid | uid in results && IsTop(results, uid) :: (uid, results[uid].0, results[uid].1)
  }

  /** A non-empty tally has a greatest score. */
  lemma {:induction false} MaxExists(results: Tally) returns (top: int)
    requires results != map[]
    ensures exists u :: u in results && results[u].1 == top
    ensures forall v :: v in results ==> results[v].1 <= top
    decreases |results.Keys|
  {
    if forall v :: v !in results {
      assert false;
    }
    var k :| k in results;
    var rest := results - {k};
    assert forall v :: v in results ==> v == k || v in rest;
    if rest == map[] {
      top := results[k].1;
    } else {
      assert |rest.Keys| < |results.Keys| by {
        assert rest.Keys < results.Keys;
      }
      var t := MaxExists(rest);
      var u :| u in rest && rest[u].1 == t;
      if results[k].1 > t {
        top := results[k].1;
      } else {
        top := t;
        assert u in results && results[u].1 == top;
      }
    }
  }

  /** The winners are exactly the users whose points equal the greatest score `top`,
      with their names and points; there are none only for an empty tally. */
  lemma {:induction false} WinnersFacts(results: Tally) returns (top: int)
    ensures WinnersFromResults(results) == {} <==> results == map[]
    ensures forall w :: w in WinnersFromResults(results) ==> w.0 in results && results[w.0] == (w.1, w.2)
    ensures forall v :: v in results ==> results[v].1 <= top
    ensures forall v :: v in results ==> ((v, results[v].0, results[v].1) in WinnersFromResults(results) <==> results[v].1 == top)
  {
    if results == map[] {
      top := 0;
    } else {
      top := MaxExists(results);
      var u :| u in results && results[u].1 == top;
      assert (u, results[u].0, results[u].1) in WinnersFromResults(results);
      forall v | v in results
        ensures (v, results[v].0, results[v].1) in WinnersFromResults(results) <==> results[v].1 == top
      {
        if results[v].1 == top {
          assert IsTop(results, v);
        }
      }
    }
  }

  /** The ids of the questions a session has asked. */
  function AskedIds(s: QuizSession): set<int> {
    set id | id in s.usedQuestionIds
  }

  /** The `quiz_user_stats` row `award_point` leaves under `key`: one more point, a new
      row starting at one point with the given name, an existing row renamed only by a
      non-empty name. */
  function PointAwarded(points: map<(int, int), QuizUserStat>, key: (int, int), displayName: Option<string>): QuizUserStat {
    if key in points then
      QuizUserStat(points[key].totalPoints + 1, if Games.IsName(displayName) then displayName else points[key].displayName)
    else QuizUserStat(1, displayName)
  }

  // ---------------------------------------------------------------------
  // The database
  // ---------------------------------------------------------------------

  /** The tables the quiz service reads and writes. `sessions` holds the latest session row
      of each scope, the one `get_active_session` finds while it is active. */
  class QuizDb {
    var questions: map<int, QuizQuestion>
    /** `quiz_used_questions`: the normalised texts of every question any quiz has asked. */
    var usedTexts: set<string>
    var sessions: map<Scope, QuizSession>
    /** `quiz_user_stats`, keyed by (user id, chat id). */
    var points: map<(int, int), QuizUserStat>
    /** The `user_stats` table the winners' bonus goes to. */
    const userStats: Games.UserStatsTable

    /** Every question a session has asked and that still exists has its text in the used set. */
    ghost predicate Valid()
      reads this
    {
      forall s, id :: s in sessions && id in sessions[s].usedQuestionIds && id in questions ==>
        QuestionKey(questions[id]) in usedTexts
    }

    constructor (questions: map<int, QuizQuestion>, userStats: Games.UserStatsTable)
      ensures this.questions == questions && usedTexts == {} && sessions == map[] && points == map[]
      ensures this.userStats == userStats
      ensures Valid()
    {
      this.questions := questions;
      usedTexts := {};
      sessions := map[];
      points := map[];
      this.userStats := userStats;
    }

    /** `get_active_session`. */
    function ActiveSession(scope: Scope): Option<QuizSession>
      reads this
    {
      if scope in sessions && sessions[scope].isActive then Some(sessions[scope]) else None
    }

    /** `get_current_question`: nothing when no question is current or it has been deleted. */
    function CurrentQuestion(s: QuizSession): Option<QuizQuestion>
      reads this
    {
      if s.currentQuestionId.Some? && s.currentQuestionId.value in questions then Some(questions[s.currentQuestionId.value]) else None
    }

    /** `can_start_quiz`. */
    function CanStartQuiz(scope: Scope): LaunchDecision
      reads this
    {
      LaunchGate(ActiveSession(scope).Some?, |Available(questions, usedTexts)|)
    }

    /** `start_quiz_session`: a new active row for the scope, at question 0, having asked nothing. */
    method StartQuizSession(scope: Scope)
      requires Valid()
      modifies this
      ensures sessions == old(sessions)[scope := QuizSession(None, 0, None, true, [])]
      ensures questions == old(questions) && usedTexts == old(usedTexts) && points == old(points)
      ensures Valid()
    {
      sessions := sessions[scope := QuizSession(None, 0, None, true, [])];
    }

    /** `get_random_question`: the random choice is any eligible question; there is none
        exactly when no question is eligible. */
    method GetRandomQuestion(s: QuizSession) returns (qid: Option<int>)
      ensures qid.Some? ==> qid.value in Eligible(questions, usedTexts, s.usedQuestionIds)
      ensures qid.None? <==> Eligible(questions, usedTexts, s.usedQuestionIds) == {}
    {
      var eligible := Eligible(questions, usedTexts, s.usedQuestionIds);
      if eligible == {} {
        return None;
      }
      if forall id :: id !in eligible {
        assert false;
      }
      var id :| id in eligible;
      return Some(id);
    }

    /** `set_current_question`: the question becomes current, the question number goes
        up by one, the start time is now, the id joins the used ids unless already there,
        and its text joins the global used set. */
    method SetCurrentQuestion(scope: Scope, qid: int, now: int)
      requires Valid() && scope in sessions && qid in questions
      modifies this
      ensures var s := old(sessions)[scope];
        sessions == old(sessions)[scope := s.(
          currentQuestionId := Some(qid),
          questionNumber := s.questionNumber + 1,
          questionStartedAt := Some(now),
          usedQuestionIds := AppendIfAbsent(s.usedQuestionIds, qid))]
      ensures usedTexts == old(usedTexts) + {QuestionKey(old(questions)[qid])}
      ensures questions == old(questions) && points == old(points)
      ensures Valid()
    {
      var s := sessions[scope];
      var ids := AppendIfAbsent(s.usedQuestionIds, qid);
      sessions := sessions[scope := s.(currentQuestionId := Some(qid), questionNumber := s.questionNumber + 1, questionStartedAt := Some(now), usedQuestionIds := ids)];
      usedTexts := usedTexts + {QuestionKey(questions[qid])};
    }

    /** What the quiz handler does to the session once an answer is accepted: no question
        is current any more and no start time is recorded. */
    method ClearCurrentQuestion(scope: Scope)
      requires Valid() && scope in sessions
      modifies this
      ensures sessions == old(sessions)[scope := old(sessions)[scope].(currentQuestionId := None, questionStartedAt := None)]
      ensures questions == old(questions) && usedTexts == old(usedTexts) && points == old(points)
      ensures Valid()
    {
      sessions := sessions[scope := sessions[scope].(currentQuestionId := None, questionStartedAt := None)];
    }

    /** `award_point`: one more point for (user, chat); a new row starts at one point with
        the given name, an existing row takes the name only when it is non-empty. */
    method AwardPoint(userId: int, chatId: int, displayName: Option<string>) returns (stat: QuizUserStat)
      modifies this
      ensures (userId, chatId) !in old(points) ==> stat == QuizUserStat(1, displayName)
      ensures (userId, chatId) in old(points) ==> var before := old(points)[(userId, chatId)];
        stat == QuizUserStat(before.totalPoints + 1, if Games.IsName(displayName) then displayName else before.displayName)
      ensures points == old(points)[(userId, chatId) := stat]
      ensures questions == old(questions) && usedTexts == old(usedTexts) && sessions == old(sessions)
    {
      var key := (userId, chatId);
      if key in points {
        stat := points[key];
        stat := stat.(totalPoints := stat.totalPoints + 1);
        if Games.IsName(displayName) {
          stat := stat.(displayName := displayName);
        }
      } else {
        stat := QuizUserStat(1, displayName);
      }
      points := points[key := stat];
    }

    /** `end_quiz_session`: the session is no longer active and has no current question,
        and every question it asked is deleted from the bank. Those texts are already
        used, so the available pool does not change. */
    method EndQuizSession(scope: Scope)
      requires Valid() && scope in sessions
      modifies this
      ensures sessions == old(sessions)[scope := old(sessions)[scope].(isActive := false, currentQuestionId := None)]
      ensures questions == old(questions) - AskedIds(old(sessions)[scope])
      ensures usedTexts == old(usedTexts) && points == old(points)
      ensures Available(questions, usedTexts) == old(Available(questions, usedTexts))
      ensures Valid()
    {
      var s := sessions[scope];
      var asked := AskedIds(s);
      DeletingSpentKeepsPool(questions, usedTexts, asked);
      sessions := sessions[scope := s.(isActive := false, currentQuestionId := None)];
      questions := questions - asked;
    }

    /** `award_winner_bonus_coins`: the `user_stats` row of (user, chat), created with the
        starting coins when missing and renamed when a name is given, gains the bonus. */
    method AwardWinnerBonusCoins(userId: int, chatId: int, displayName: Option<string>) returns (stats: Games.UserStat)
      modifies userStats
      ensures var before := if (userId, chatId) in old(userStats.rows) then old(userStats.rows)[(userId, chatId)] else Games.NewUserStat(displayName);
        stats == (if Games.IsName(displayName) then before.(displayName := displayName) else before).(coins := before.coins + WinnerCoinsBonus)
      ensures userStats.rows == old(userStats.rows)[(userId, chatId) := stats]
    {
      stats := userStats.GetOrCreateStats(userId, chatId, displayName);
      stats := stats.(coins := stats.coins + WinnerCoinsBonus);
      userStats.rows := userStats.rows[(userId, chatId) := stats];
    }
  }
}
