/**
 * The parts of the AI client (app/services/ai_module.py) that decide something
 * without the network: the local quiz answer judge and the parser of the model's
 * verdict, the local moderation and the parser of the model's moderation reply,
 * the assistant's topic filter, the retry policy of the HTTP call and the
 * cooldown of admin alerts.
 *
 * Confidences, which the source keeps as floats, are exact `real`s here.
 */
module AiModule {
  import opened Wrappers
  import Text

  // ---------------------------------------------------------------------
  // Decisions
  // ---------------------------------------------------------------------

  datatype ViolationType = NoViolation | Profanity | Rude | Aggression

  datatype ModerationAction = NoAction | Warn | DeleteWarn | DeleteStrike

  datatype ModerationDecision = ModerationDecision(
    violationType: ViolationType,
    severity: int,
    confidence: real,
    action: ModerationAction,
    usedFallback: bool)

  datatype QuizAnswerDecision = QuizAnswerDecision(
    isCorrect: bool,
    isClose: bool,
    confidence: real,
    reason: string,
    usedFallback: bool)

  /** `max(lo, min(hi, x))` on integers. */
  function ClampInt(lo: int, hi: int, x: int): (r: int)
    requires lo <= hi
    ensures lo <= r <= hi
    ensures lo <= x <= hi ==> r == x
    ensures x < lo ==> r == lo
    ensures x > hi ==> r == hi
  {
    if x < lo then lo else if x > hi then hi else x
  }

  /** `max(0.0, min(1.0, x))`. */
  function ClampUnit(x: real): (r: real)
    ensures 0.0 <= r <= 1.0
    ensures 0.0 <= x <= 1.0 ==> r == x
    ensures x < 0.0 ==> r == 0.0
    ensures x > 1.0 ==> r == 1.0
  {
    if x < 0.0 then 0.0 else if x > 1.0 then 1.0 else x
  }

  /** `dict.get(key, default)` on a reply field that is either present or missing. */
  function GetOr<T>(field: Option<T>, default: T): T {
    if field.Some? then field.value else default
  }

  // ---------------------------------------------------------------------
  // The local quiz answer judge
  // ---------------------------------------------------------------------

  /** `.replace("ё", "е")` on one character. */
  function YoToYe(c: char): char {
    if c == 'ё' then 'е' else c
  }

  function ReplaceYo(s: string): (r: string)
    ensures |r| == |s| && 'ё' !in r
  {
    seq(|s|, i requires 0 <= i < |s| => YoToYe(s[i]))
  }

  /** The words of `_normalize_quiz_text`: lowered, `ё` read as `е`, every run of
      characters that are neither word characters nor whitespace a separator. */
  function QuizWords(text: string): (words: seq<string>)
    ensures Text.AreWords(words)
  {
    Text.SplitAreWords(Text.PunctToSpace(ReplaceYo(Text.LowerStr(text))));
    Text.Split(Text.PunctToSpace(ReplaceYo(Text.LowerStr(text))))
  }

  /** `_normalize_quiz_text`: the words joined by single spaces. */
  function NormalizeQuizText(text: string): string {
    Text.Join(QuizWords(text))
  }

  /** The normalised text is empty exactly when there are no words, and splitting it
      gives the words back. */
  lemma NormalizeQuizTextWords(text: string)
    ensures Text.Split(NormalizeQuizText(text)) == QuizWords(text)
    ensures NormalizeQuizText(text) == "" <==> QuizWords(text) == []
  {
    Text.SplitJoin(QuizWords(text));
    if QuizWords(text) != [] {
      assert Text.Split(NormalizeQuizText(text)) != [];
    }
  }

  /** The distinct words of a text, `set(text.split())`. */
  function WordSet(s: string): set<string> {
    set w | w in Text.Split(s)
  }

  /** The last step of `local_quiz_answer_decision`: `overlap` of the `total` distinct
      words of the correct answer occur in the answer. */
  function RatioDecision(overlap: nat, total: nat): QuizAnswerDecision
    requires total > 0
  {
    var ratio := overlap as real / total as real;
    if ratio >= 0.8 then QuizAnswerDecision(true, true, 0.8, "почти полный смысловой матч", false)
    else if ratio >= 0.3 then QuizAnswerDecision(false, true, 0.6, "частично близкий ответ", false)
    else QuizAnswerDecision(false, false, 0.2, "не совпадает", false)
  }

  /** `local_quiz_answer_decision`: both sides normalised; an empty side is neither
      correct nor close; equal texts are correct; otherwise the share of the correct
      answer's distinct words that the answer also contains decides. */
  function LocalQuizAnswerDecision(correctAnswer: string, userAnswer: string): QuizAnswerDecision {
    var correct := NormalizeQuizText(correctAnswer);
    var answer := NormalizeQuizText(userAnswer);
    if correct == "" || answer == "" then QuizAnswerDecision(false, false, 0.0, "пустой ответ", false)
    else if correct == answer then QuizAnswerDecision(true, true, 0.95, "точное совпадение", false)
    else
      var correctWords := WordSet(correct);
      var answerWords := WordSet(answer);
      var overlap := |correctWords * answerWords|;
      if |correctWords| == 0 then QuizAnswerDecision(false, false, 0.0, "нет эталона", false)
      else RatioDecision(overlap, |correctWords|)
  }

  /** `ratio >= num / den` for `ratio == overlap / n`, as integer arithmetic. */
  lemma RatioAtLeast(overlap: nat, n: nat, num: nat, den: nat)
    requires n > 0 && den > 0
    ensures overlap as real / n as real >= num as real / den as real <==> den * overlap >= num * n
  {
    var ratio := overlap as real / n as real;
    assert ratio * n as real == overlap as real;
    assert (num as real / den as real) * den as real == num as real;
    if ratio >= num as real / den as real {
      assert ratio * (n * den) as real >= (num as real / den as real) * (n * den) as real;
    } else {
      assert ratio * (n * den) as real < (num as real / den as real) * (n * den) as real;
    }
  }

  /** The thresholds: correct iff overlap/total >= 0.8, close iff overlap/total >= 0.3. */
  lemma RatioDecisionFacts(overlap: nat, total: nat)
    requires total > 0
    ensures var d := RatioDecision(overlap, total);
      && 0.0 <= d.confidence <= 1.0 && !d.usedFallback && d.reason != "нет эталона"
      && (d.isCorrect <==> 5 * overlap >= 4 * total)
      && (d.isClose <==> 10 * overlap >= 3 * total)
  {
    RatioAtLeast(overlap, total, 8, 10);
    RatioAtLeast(overlap, total, 3, 10);
    assert 0.8 == 8 as real / 10 as real;
    assert 0.3 == 3 as real / 10 as real;
  }

  /** The distinct words of the normalised text are the distinct normalised words. */
  lemma WordSetOfNormalized(text: string)
    ensures WordSet(NormalizeQuizText(text)) == set w | w in QuizWords(text)
  {
    NormalizeQuizTextWords(text);
  }

  /** What the local judge decides. An empty normalised side is never correct or close;
      equal normalised texts are correct; otherwise, with `overlap` distinct words of the
      correct answer found in the answer out of `n`, the answer is correct iff
      overlap/n >= 0.8 and close iff overlap/n >= 0.3. A correct decision is always
      close, the confidence is a probability, and the "no reference" branch is never
      taken. */
  lemma LocalQuizAnswerDecisionFacts(correctAnswer: string, userAnswer: string)
    ensures var d := LocalQuizAnswerDecision(correctAnswer, userAnswer);
      && (d.isCorrect ==> d.isClose)
      && 0.0 <= d.confidence <= 1.0
      && !d.usedFallback
      && d.reason != "нет эталона"
    ensures var d := LocalQuizAnswerDecision(correctAnswer, userAnswer);
      (QuizWords(correctAnswer) == [] || QuizWords(userAnswer) == []) ==> !d.isCorrect && !d.isClose
    ensures var d := LocalQuizAnswerDecision(correctAnswer, userAnswer);
      QuizWords(correctAnswer) != [] && QuizWords(correctAnswer) == QuizWords(userAnswer) ==> d.isCorrect
    ensures var d := LocalQuizAnswerDecision(correctAnswer, userAnswer);
      var correctWords := set w | w in QuizWords(correctAnswer);
      var answerWords := set w | w in QuizWords(userAnswer);
      var overlap := |correctWords * answerWords|;
      var n := |correctWords|;
      QuizWords(correctAnswer) != [] && QuizWords(userAnswer) != [] && QuizWords(correctAnswer) != QuizWords(userAnswer) ==>
        && n > 0
        && (d.isCorrect <==> 5 * overlap >= 4 * n)
        && (d.isClose <==> 10 * overlap >= 3 * n)
  {
    NormalizeQuizTextWords(correctAnswer);
    NormalizeQuizTextWords(userAnswer);
    var correct := NormalizeQuizText(correctAnswer);
    var answer := NormalizeQuizText(userAnswer);
    var d := LocalQuizAnswerDecision(correctAnswer, userAnswer);
    if correct == "" || answer == "" {
      assert d == QuizAnswerDecision(false, false, 0.0, "пустой ответ", false);
    } else if correct == answer {
      assert d == QuizAnswerDecision(true, true, 0.95, "точное совпадение", false);
    } else {
      WordSetOfNormalized(correctAnswer);
      WordSetOfNormalized(userAnswer);
      var correctWords := WordSet(correct);
      var answerWords := WordSet(answer);
      assert QuizWords(correctAnswer)[0] in correctWords;
      var overlap := |correctWords * answerWords|;
      RatioDecisionFacts(overlap, |correctWords|);
      assert d == RatioDecision(overlap, |correctWords|);
    }
  }

  /** The model's verdict on a quiz answer, with each field present or missing
      (`is_correct`, `is_close`, `confidence`, `reason`). */
  datatype QuizVerdictReply = QuizVerdictReply(
    isCorrect: Option<bool>,
    isClose: Option<bool>,
    confidence: Option<real>,
    reason: Option<string>)

  /** `parse_quiz_answer_response`. */
  function ParseQuizAnswerResponse(data: QuizVerdictReply): (d: QuizAnswerDecision)
    ensures d.isCorrect == GetOr(data.isCorrect, false)
    ensures d.isClose == (d.isCorrect || GetOr(data.isClose, false))
    ensures 0.0 <= d.confidence <= 1.0
    ensures 0.0 <= GetOr(data.confidence, 0.5) <= 1.0 ==> d.confidence == GetOr(data.confidence, 0.5)
    ensures GetOr(data.confidence, 0.5) < 0.0 ==> d.confidence == 0.0
    ensures GetOr(data.confidence, 0.5) > 1.0 ==> d.confidence == 1.0
    ensures d.reason <= GetOr(data.reason, "")
    ensures |d.reason| == if |GetOr(data.reason, "")| <= 300 then |GetOr(data.reason, "")| else 300
    ensures !d.usedFallback
  {
    var isCorrect := GetOr(data.isCorrect, false);
    var isClose := GetOr(data.isClose, false);
    var confidence := ClampUnit(GetOr(data.confidence, 0.5));
    var text := GetOr(data.reason, "");
    var reason := if |text| <= 300 then text else text[..300];
    QuizAnswerDecision(isCorrect, if isCorrect then true else isClose, confidence, reason, false)
  }

  /** Every decision either judge produces is consistent: correct implies close, and
      the confidence is a probability. */
  predicate ConsistentQuizDecision(d: QuizAnswerDecision) {
    (d.isCorrect ==> d.isClose) && 0.0 <= d.confidence <= 1.0
  }

  lemma QuizDecisionsConsistent(correctAnswer: string, userAnswer: string, data: QuizVerdictReply)
    ensures ConsistentQuizDecision(LocalQuizAnswerDecision(correctAnswer, userAnswer))
    ensures ConsistentQuizDecision(ParseQuizAnswerResponse(data))
  {
    LocalQuizAnswerDecisionFacts(correctAnswer, userAnswer);
  }

  // ---------------------------------------------------------------------
  // Moderation
  // ---------------------------------------------------------------------

  /** `map_action_by_severity`. */
  function MapActionBySeverity(severity: int): (a: ModerationAction)
    ensures a == NoAction <==> severity !in {1, 2, 3}
    ensures a == Warn <==> severity == 1
    ensures a == DeleteWarn <==> severity == 2
    ensures a == DeleteStrike <==> severity == 3
  {
    if severity == 1 then Warn
    else if severity == 2 then DeleteWarn
    else if severity == 3 then DeleteStrike
    else NoAction
  }

  /** How hard an action hits, for comparing actions. */
  function ActionRank(a: ModerationAction): nat {
    match a
    case NoAction => 0
    case Warn => 1
    case DeleteWarn => 2
    case DeleteStrike => 3
  }

  /** On the scale 0..3 the action grows with the severity and its rank is the severity. */
  lemma MapActionBySeverityMonotone(s: int, t: int)
    requires 0 <= s <= t <= 3
    ensures ActionRank(MapActionBySeverity(s)) == s
    ensures ActionRank(MapActionBySeverity(s)) <= ActionRank(MapActionBySeverity(t))
  {
  }

  /** The `violation_map` lookup with its default. */
  function ViolationOf(name: string): (v: ViolationType)
    ensures v == Aggression <==> name in {"hate", "threat", "aggression"}
    ensures v == Profanity <==> name == "profanity"
    ensures v == Rude <==> name == "rude"
  {
    if name == "profanity" then Profanity
    else if name == "rude" then Rude
    else if name == "hate" || name == "threat" || name == "aggression" then Aggression
    else NoViolation
  }

  /** The `action_map` lookup, `None` for a key it does not have. */
  function ActionOf(action: string): (a: Option<ModerationAction>)
    ensures a.Some? <==> action in {"none", "allow", "warn", "delete", "delete_warn", "strike", "delete_strike", "admin_alert"}
    ensures a == Some(NoAction) <==> action in {"none", "allow"}
    ensures a == Some(DeleteStrike) <==> action in {"strike", "delete_strike", "admin_alert"}
  {
    if action == "none" || action == "allow" then Some(NoAction)
    else if action == "warn" then Some(Warn)
    else if action == "delete" || action == "delete_warn" then Some(DeleteWarn)
    else if action == "strike" || action == "delete_strike" || action == "admin_alert" then Some(DeleteStrike)
    else None
  }

  /** The model's moderation reply, each field present or missing. */
  datatype ModerationReply = ModerationReply(
    violationType: Option<string>,
    labelField: Option<string>,
    severity: Option<int>,
    confidence: Option<real>,
    action: Option<string>,
    recommendedAction: Option<string>)

  /** The label the parser reads: `violation_type`, else `label`, else "none", lowered. */
  function RawLabel(data: ModerationReply): string {
    Text.LowerStr(GetOr(data.violationType, GetOr(data.labelField, "none")))
  }

  /** The action the parser reads: `action`, else `recommended_action`, else "none", lowered. */
  function RawAction(data: ModerationReply): string {
    Text.LowerStr(GetOr(data.action, GetOr(data.recommendedAction, "none")))
  }

  /** `parse_moderation_response`: unknown labels read as no violation; an unknown
      action falls back to the severity as given, before the severity is clamped into
      0..3 and the confidence into [0, 1]. */
  function ParseModerationResponse(data: ModerationReply): (d: ModerationDecision)
    ensures d.violationType == ViolationOf(RawLabel(data))
    ensures 0 <= d.severity <= 3 && 0.0 <= d.confidence <= 1.0
    ensures 0 <= GetOr(data.severity, 0) <= 3 ==> d.severity == GetOr(data.severity, 0)
    ensures GetOr(data.severity, 0) < 0 ==> d.severity == 0
    ensures GetOr(data.severity, 0) > 3 ==> d.severity == 3
    ensures 0.0 <= GetOr(data.confidence, 0.5) <= 1.0 ==> d.confidence == GetOr(data.confidence, 0.5)
    ensures GetOr(data.confidence, 0.5) < 0.0 ==> d.confidence == 0.0
    ensures GetOr(data.confidence, 0.5) > 1.0 ==> d.confidence == 1.0
    ensures ActionOf(RawAction(data)).Some? ==> d.action == ActionOf(RawAction(data)).value
    ensures ActionOf(RawAction(data)).None? ==> d.action == MapActionBySeverity(GetOr(data.severity, 0))
    ensures !d.usedFallback
  {
    var violationType := ViolationOf(RawLabel(data));
    var severity := GetOr(data.severity, 0);
    var confidence := GetOr(data.confidence, 0.5);
    var known := ActionOf(RawAction(data));
    var action := if known.Some? then known.value else MapActionBySeverity(severity);
    ModerationDecision(violationType, ClampInt(0, 3, severity), ClampUnit(confidence), action, false)
  }

  /** An unknown action with a severity inside 0..3 gives the action that severity maps
      to, so decision and severity agree. Outside that range they need not: a severity of
      5 is reported as 3 while its action is none. */
  lemma ParsedActionFollowsSeverity(data: ModerationReply)
    requires ActionOf(RawAction(data)).None?
    ensures var d := ParseModerationResponse(data);
      0 <= GetOr(data.severity, 0) <= 3 ==> d.action == MapActionBySeverity(d.severity)
    ensures var d := ParseModerationResponse(data);
      GetOr(data.severity, 0) > 3 ==> d.severity == 3 && d.action == NoAction
  {
  }

  // ---------------------------------------------------------------------
  // Masked profanity
  // ---------------------------------------------------------------------

  /** `_LATIN_TO_CYR`: Latin letters that look like Cyrillic ones. */
  function LatinToCyr(c: char): char {
    match c
    case 'a' => 'а' case 'b' => 'в' case 'c' => 'с' case 'e' => 'е'
    case 'h' => 'н' case 'k' => 'к' case 'm' => 'м' case 'o' => 'о'
    case 'p' => 'р' case 't' => 'т' case 'x' => 'х' case 'y' => 'у'
    case _ => c
  }

  /** `_DIGIT_TO_CYR`: digits that look like Cyrillic letters. */
  function DigitToCyr(c: char): char {
    match c
    case '0' => 'о' case '3' => 'з' case '4' => 'ч' case '6' => 'б'
    case _ => c
  }

  /** A character one of the two translation tables replaces. */
  predicate IsLookalike(c: char) {
    LatinToCyr(c) != c || DigitToCyr(c) != c
  }

  /** The characters of the mask class, which are dropped: whitespace, `-`, `_`, `.`, the
      asterisk and `/`. */
  predicate IsMask(c: char) {
    Text.IsSpace(c) || c == '-' || c == '_' || c == '.' || c == '*' || c == '/'
  }

  /** Everything `normalize_for_profanity` does to one character before the mask
      characters are dropped: lower, `ё` to `е`, then the two tables. */
  function FoldChar(c: char): char {
    DigitToCyr(LatinToCyr(YoToYe(Text.Lower(c))))
  }

  /** A lower-case Cyrillic letter from `а` to `я` is left alone by lowering and by both
      tables, and is no mask character. */
  lemma CyrillicFixed(r: char)
    requires 'а' <= r <= 'я'
    ensures Text.Lower(r) == r && r != 'ё' && !IsLookalike(r) && !IsMask(r)
  {
  }

  /** The Latin table maps its letters to lower-case Cyrillic ones; its keys are no mask
      characters. */
  lemma LatinStep(l: char)
    requires LatinToCyr(l) != l
    ensures 'а' <= LatinToCyr(l) <= 'я' && !IsMask(l)
  {
  }

  /** The digit table maps its digits to lower-case Cyrillic letters; its keys are no
      mask characters. */
  lemma DigitStep(l: char)
    requires DigitToCyr(l) != l
    ensures 'а' <= DigitToCyr(l) <= 'я' && !IsMask(l)
  {
  }

  /** A folded character is lower case, not `ё` and no look-alike any more, and it is a
      mask character exactly when the original was. */
  lemma FoldCharFacts(c: char)
    ensures var r := FoldChar(c);
      Text.Lower(r) == r && r != 'ё' && !IsLookalike(r) && IsMask(r) == IsMask(c)
  {
    Text.LowerFacts(c);
    var l := YoToYe(Text.Lower(c));
    assert Text.Lower(l) == l && l != 'ё' && IsMask(l) == IsMask(c) by {
      if Text.Lower(c) == 'ё' {
        assert l == 'е';
      }
    }
    var r := FoldChar(c);
    if LatinToCyr(l) != l {
      LatinStep(l);
      CyrillicFixed(LatinToCyr(l));
      assert r == LatinToCyr(l);
      CyrillicFixed(r);
    } else if DigitToCyr(l) != l {
      DigitStep(l);
      assert r == DigitToCyr(l);
      CyrillicFixed(r);
    } else {
      assert r == l;
    }
  }

  function TranslateStr(s: string): string {
    seq(|s|, i requires 0 <= i < |s| => DigitToCyr(LatinToCyr(s[i])))
  }

  /** The `re.sub` of `normalize_for_profanity`: every mask character dropped, the
      others kept in order. */
  function DropMasks(s: string): (r: string)
    ensures forall c :: c in r ==> c in s && !IsMask(c)
    ensures (forall c :: c in s ==> !IsMask(c)) ==> r == s
  {
    if s == [] then []
    else
      var rest := DropMasks(s[1..]);
      assert forall c :: c in s[1..] ==> c in s;
      if IsMask(s[0]) then rest else [s[0]] + rest
  }

  lemma {:induction false} DropMasksConcat(a: string, b: string)
    ensures DropMasks(a + b) == DropMasks(a) + DropMasks(b)
  {
    if a == [] {
      assert a + b == b;
    } else {
      assert (a + b)[0] == a[0];
      assert (a + b)[1..] == a[1..] + b;
      DropMasksConcat(a[1..], b);
    }
  }

  /** `normalize_for_profanity`. */
  function NormalizeForProfanity(text: string): string {
    var lowered := ReplaceYo(Text.LowerStr(text));
    DropMasks(TranslateStr(lowered))
  }

  /** The stages before the dropping, one character at a time. */
  function FoldStr(s: string): string {
    seq(|s|, i requires 0 <= i < |s| => FoldChar(s[i]))
  }

  lemma FoldStages(text: string)
    ensures NormalizeForProfanity(text) == DropMasks(FoldStr(text))
  {
    assert TranslateStr(ReplaceYo(Text.LowerStr(text))) == FoldStr(text);
  }

  lemma FoldStrConcat(a: string, b: string)
    ensures FoldStr(a + b) == FoldStr(a) + FoldStr(b)
  {
  }

  /** The normalised text has no mask character, no `ё`, no capital and none of the
      look-alike Latin letters or digits; normalising it again changes nothing. */
  lemma NormalizeForProfanityFacts(text: string)
    ensures var r := NormalizeForProfanity(text);
      forall c :: c in r ==> !IsMask(c) && c != 'ё' && Text.Lower(c) == c && !IsLookalike(c)
    ensures NormalizeForProfanity(NormalizeForProfanity(text)) == NormalizeForProfanity(text)
  {
    FoldStages(text);
    var folded := FoldStr(text);
    var r := NormalizeForProfanity(text);
    forall c | c in folded ensures Text.Lower(c) == c && c != 'ё' && !IsLookalike(c) {
      var i :| 0 <= i < |folded| && folded[i] == c;
      FoldCharFacts(text[i]);
    }
    FoldStages(r);
    forall i | 0 <= i < |r| ensures FoldChar(r[i]) == r[i] {
      assert r[i] in r;
    }
    assert FoldStr(r) == r;
  }

  /** Mask characters anywhere in the text do not change the normalised text, which
      is what lets `б*л_я` be caught. */
  lemma MaskCharacterIgnored(a: string, x: char, b: string)
    requires IsMask(x)
    ensures NormalizeForProfanity(a + [x] + b) == NormalizeForProfanity(a + b)
  {
    var fa, fx, fb := FoldStr(a), FoldStr([x]), FoldStr(b);
    assert FoldStr(a + [x] + b) == fa + fx + fb by {
      FoldStrConcat(a + [x], b);
      FoldStrConcat(a, [x]);
    }
    assert FoldStr(a + b) == fa + fb by {
      FoldStrConcat(a, b);
    }
    assert DropMasks(fx) == [] by {
      FoldCharFacts(x);
      assert fx == [FoldChar(x)];
    }
    DropMasksConcat(fa + fx, fb);
    DropMasksConcat(fa, fx);
    DropMasksConcat(fa, fb);
    FoldStages(a + [x] + b);
    FoldStages(a + b);
  }

  const ProfanityRoots: seq<string> := ["хуй", "пизд", "еб", "бля", "сук", "муд", "гандон"]

  /** `detect_profanity`: one of the roots occurs in the normalised text. */
  predicate DetectProfanity(normalized: string) {
    exists k :: 0 <= k < |ProfanityRoots| && Text.IsSubstring(ProfanityRoots[k], normalized)
  }

  /** A root found in a text is still found once text is added around it. */
  lemma DetectProfanityExtends(a: string, s: string, b: string)
    requires DetectProfanity(s)
    ensures DetectProfanity(a + s + b)
  {
    var k :| 0 <= k < |ProfanityRoots| && Text.IsSubstring(ProfanityRoots[k], s);
    var i :| 0 <= i <= |s| && Text.HasAt(s, i, ProfanityRoots[k]);
    assert (a + s + b)[|a| + i..|a| + i + |ProfanityRoots[k]|] == s[i..i + |ProfanityRoots[k]|];
    assert Text.HasAt(a + s + b, |a| + i, ProfanityRoots[k]);
  }

  const RudePatterns: seq<string> := ["заткни", "идиот", "туп", "дебил", "ненавиж", "пошел", "отвали", "замолчи"]

  /** One of `tokens` occurs in `s`, Python's `any(t in s for t in tokens)`. */
  predicate AnyToken(tokens: seq<string>, s: string) {
    exists k :: 0 <= k < |tokens| && Text.IsSubstring(tokens[k], s)
  }

  /** `local_moderation`: masked profanity is struck, a rude word warned, the rest allowed. */
  function LocalModeration(text: string): ModerationDecision {
    if DetectProfanity(NormalizeForProfanity(text)) then ModerationDecision(Profanity, 3, 0.95, DeleteStrike, false)
    else if AnyToken(RudePatterns, Text.LowerStr(text)) then ModerationDecision(Rude, 1, 0.8, Warn, false)
    else ModerationDecision(NoViolation, 0, 0.99, NoAction, false)
  }

  /** The local moderation's action is always the one its severity maps to, profanity
      wins over rudeness, and a text with either is never allowed. */
  lemma LocalModerationFacts(text: string)
    ensures var d := LocalModeration(text);
      && d.action == MapActionBySeverity(d.severity)
      && 0 <= d.severity <= 3 && 0.0 <= d.confidence <= 1.0
      && (d.violationType == Profanity <==> DetectProfanity(NormalizeForProfanity(text)))
      && (d.violationType == Rude <==> !DetectProfanity(NormalizeForProfanity(text)) && AnyToken(RudePatterns, Text.LowerStr(text)))
      && (d.action == NoAction <==> d.violationType == NoViolation)
  {
  }

  /** Masking a word with mask characters does not hide it from the local moderation. */
  lemma MaskedProfanityStruck(a: string, x: char, b: string)
    requires IsMask(x) && DetectProfanity(NormalizeForProfanity(a + b))
    ensures LocalModeration(a + [x] + b).action == DeleteStrike
  {
    MaskCharacterIgnored(a, x, b);
  }

  // ---------------------------------------------------------------------
  // The assistant's topic filter
  // ---------------------------------------------------------------------

  const AllowedAssistantTopics: seq<string> :=
    ["жк", "двор", "подъезд", "парков", "шлагбаум", "инфраструктур", "ремонт", "сосед", "быт", "коммун", "дом", "квартира"]

  const ForbiddenAssistantTopics: seq<string> :=
    ["полит", "религи", "националь", "медицин", "диагноз", "юрид", "суд", "адвокат", "финанс", "инвест", "кредит", "паспорт", "телефон", "email"]

  /** `is_assistant_topic_allowed`: a forbidden token refuses, otherwise an allowed one admits. */
  predicate IsAssistantTopicAllowed(text: string) {
    var lowered := Text.LowerStr(text);
    if AnyToken(ForbiddenAssistantTopics, lowered) then false
    else AnyToken(AllowedAssistantTopics, lowered)
  }

  /** A forbidden token refuses the text whatever allowed tokens it also has, and the
      filter does not depend on letter case. */
  lemma TopicFilterFacts(text: string, k: nat, i: nat)
    requires k < |ForbiddenAssistantTopics| && Text.HasAt(Text.LowerStr(text), i, ForbiddenAssistantTopics[k])
    ensures !IsAssistantTopicAllowed(text)
    ensures !IsAssistantTopicAllowed(Text.LowerStr(text))
  {
    Text.LowerStrIsLowered(text);
    Text.LowerStrOfLowered(Text.LowerStr(text));
  }

  lemma TopicFilterIgnoresCase(text: string)
    ensures IsAssistantTopicAllowed(Text.LowerStr(text)) == IsAssistantTopicAllowed(text)
  {
    Text.LowerStrIsLowered(text);
    Text.LowerStrOfLowered(Text.LowerStr(text));
  }

  /** A request for financial advice is refused. */
  lemma FinancialAdviceRefused()
    ensures !IsAssistantTopicAllowed("Дай финансовый совет")
  {
    var text := "Дай финансовый совет";
    var lowered := Text.LowerStr(text);
    assert text[4..10] == "финанс";
    assert lowered[4..10] == "финанс" by {
      forall i | 4 <= i < 10 ensures lowered[i] == text[i] {
        assert 'а' <= text[i] <= 'я';
      }
    }
    assert ForbiddenAssistantTopics[8] == "финанс";
    TopicFilterFacts(text, 8, 4);
  }

  // ---------------------------------------------------------------------
  // The retry policy of the HTTP call
  // ---------------------------------------------------------------------

  /** The body of an HTTP answer: not JSON, or JSON that is or is not an object. */
  datatype Body = NotJson | Json(isObject: bool)

  /** What one attempt of the POST gives: a timeout, another transport error (named by
      its exception class), or an HTTP answer. */
  datatype Attempt = TimedOut | NetworkFailure(errorName: string) | Answered(status: int, body: Body)

  datatype FailReason = TimeoutReason | NetworkError(errorName: string) | HttpStatus(status: int) | InvalidJson | InvalidSchema | UnknownError

  /** `AiCallOutcome`: success carries the JSON object, failure a reason. */
  datatype CallOutcome = Succeeded | Failed(reason: FailReason)

  /** An attempt the loop retries unless it is the last one. */
  predicate Retryable(a: Attempt) {
    a.TimedOut? || a.NetworkFailure? || (a.Answered? && a.status >= 500)
  }

  /** The outcome of the loop from attempt `attempt` (counted from 1) on, when the i-th
      attempt gives `attempts[i - 1]`, with the number of attempts made in total. */
  function RetryFrom(attempts: seq<Attempt>, attempt: nat, limit: int): (CallOutcome, nat)
    requires 1 <= attempt && limit <= |attempts|
    decreases if attempt <= limit then limit - attempt + 1 else 0
  {
    if attempt > limit then (Failed(UnknownError), attempt - 1)
    else
      var last := attempt >= limit;
      match attempts[attempt - 1]
      case TimedOut =>
        if last then (Failed(TimeoutReason), attempt) else RetryFrom(attempts, attempt + 1, limit)
      case NetworkFailure(name) =>
        if last then (Failed(NetworkError(name)), attempt) else RetryFrom(attempts, attempt + 1, limit)
      case Answered(status, body) =>
        if status == 401 || status == 403 then (Failed(HttpStatus(status)), attempt)
        else if status >= 500 then
          if last then (Failed(HttpStatus(status)), attempt) else RetryFrom(attempts, attempt + 1, limit)
        else if status >= 400 then (Failed(HttpStatus(status)), attempt)
        else match body
          case NotJson => (Failed(InvalidJson), attempt)
          case Json(isObject) => if isObject then (Succeeded, attempt) else (Failed(InvalidSchema), attempt)
  }

  /** The policy, from attempt `attempt` on: at most `limit` attempts are made; every
      attempt before the last one made was retryable; the loop stops early only on an
      attempt it does not retry; success needs a JSON object with a status below 400;
      and a 4xx answer ends the loop with its status. */
  lemma {:induction false} RetryFromFacts(attempts: seq<Attempt>, attempt: nat, limit: int)
    requires 1 <= attempt <= limit + 1 && limit <= |attempts|
    ensures var (outcome, used) := RetryFrom(attempts, attempt, limit);
      && attempt - 1 <= used <= limit
      && (attempt <= limit ==> attempt <= used)
      && (forall j :: attempt - 1 <= j < used - 1 ==> Retryable(attempts[j]))
      && (used < limit && used >= attempt ==> !Retryable(attempts[used - 1]))
      && (outcome == Failed(UnknownError) <==> attempt > limit)
      && (outcome == Succeeded ==>
            used >= attempt && attempts[used - 1].Answered? && attempts[used - 1].status < 400
            && attempts[used - 1].body == Json(true))
      && (used >= attempt && attempts[used - 1].Answered? && 400 <= attempts[used - 1].status < 500 ==>
            outcome == Failed(HttpStatus(attempts[used - 1].status)))
    decreases limit - attempt + 1
  {
    if attempt <= limit {
      var a := attempts[attempt - 1];
      if Retryable(a) && attempt < limit {
        RetryFromFacts(attempts, attempt + 1, limit);
        assert RetryFrom(attempts, attempt, limit) == RetryFrom(attempts, attempt + 1, limit);
      }
    }
  }

  /** `_post_with_retries`: `retries + 1` attempts at most. */
  method PostWithRetries(retries: int, attempts: seq<Attempt>) returns (outcome: CallOutcome, used: nat)
    requires retries + 1 <= |attempts|
    ensures (outcome, used) == RetryFrom(attempts, 1, retries + 1)
  {
    var limit := retries + 1;
    var attempt := 1;
    while attempt <= limit
      invariant 1 <= attempt
      invariant RetryFrom(attempts, attempt, limit) == RetryFrom(attempts, 1, limit)
      decreases limit - attempt + 1
    {
      var last := attempt >= limit;
      match attempts[attempt - 1] {
        case TimedOut =>
          if last {
            return Failed(TimeoutReason), attempt;
          }
        case NetworkFailure(name) =>
          if last {
            return Failed(NetworkError(name)), attempt;
          }
        case Answered(status, body) =>
          if status == 401 || status == 403 {
            return Failed(HttpStatus(status)), attempt;
          }
          if status < 500 {
            if status >= 400 {
              return Failed(HttpStatus(status)), attempt;
            }
            match body {
              case NotJson =>
                return Failed(InvalidJson), attempt;
              case Json(isObject) =>
                if !isObject {
                  return Failed(InvalidSchema), attempt;
                }
                return Succeeded, attempt;
            }
          }
          if last {
            return Failed(HttpStatus(status)), attempt;
          }
      }
      attempt := attempt + 1;
    }
    return Failed(UnknownError), attempt - 1;
  }

  /** The promises of `_post_with_retries` for any number of retries. */
  lemma PostWithRetriesPolicy(retries: int, attempts: seq<Attempt>)
    requires retries + 1 <= |attempts|
    ensures var (outcome, used) := RetryFrom(attempts, 1, retries + 1);
      && (retries >= 0 ==> 1 <= used <= retries + 1 && outcome != Failed(UnknownError))
      && (retries < 0 ==> used == 0 && outcome == Failed(UnknownError))
      && (forall j :: 0 <= j < used - 1 ==> Retryable(attempts[j]))
      && (1 <= used <= retries ==> !Retryable(attempts[used - 1]))
      && (outcome == Succeeded ==> attempts[used - 1].Answered? && attempts[used - 1].body == Json(true))
  {
    if retries >= 0 {
      RetryFromFacts(attempts, 1, retries + 1);
    }
  }

  // ---------------------------------------------------------------------
  // Admin alerts
  // ---------------------------------------------------------------------

  /** `_ADMIN_ALERT_COOLDOWN`, ten minutes in seconds. */
  const AdminAlertCooldown := 600

  /** An alert under `key` at `now` is dropped: the same key was alerted less than the
      cooldown earlier. */
  predicate Suppressed(lastAlertAt: map<string, int>, key: string, now: int) {
    key in lastAlertAt && now - lastAlertAt[key] < AdminAlertCooldown
  }

  /** The table of last alert times after an alert attempt. */
  function AfterAlert(lastAlertAt: map<string, int>, key: string, now: int): map<string, int> {
    if Suppressed(lastAlertAt, key, now) then lastAlertAt else lastAlertAt[key := now]
  }

  /** Once an alert goes out at `t`, the key is silent until `t` plus the cooldown and
      open from then on; a dropped alert does not push that moment back, and no other
      key is affected. */
  lemma {:induction false} AlertCooldownWindow(lastAlertAt: map<string, int>, key: string, t: int, later: int, other: string)
    requires t <= later && other != key
    ensures var after := AfterAlert(lastAlertAt, key, t);
      && key in after
      && (Suppressed(after, key, later) <==> later < after[key] + AdminAlertCooldown)
      && (!Suppressed(lastAlertAt, key, t) ==> after[key] == t)
      && (Suppressed(lastAlertAt, key, t) ==> after == lastAlertAt)
      && Suppressed(after, other, later) == Suppressed(lastAlertAt, other, later)
  {
  }

  /** The process-wide table `_LAST_ADMIN_ALERT_AT`. */
  class AdminAlerts {
    var lastAlertAt: map<string, int>

    constructor()
      ensures lastAlertAt == map[]
    {
      lastAlertAt := map[];
    }

    /** `_maybe_alert_admin`: a suppressed key changes nothing; otherwise the time is
        recorded and the notifier, when one is set, is called. */
    method MaybeAlertAdmin(reasonKey: string, now: int, hasNotifier: bool) returns (notified: bool)
      modifies this
      ensures lastAlertAt == AfterAlert(old(lastAlertAt), reasonKey, now)
      ensures notified <==> hasNotifier && !Suppressed(old(lastAlertAt), reasonKey, now)
    {
      if reasonKey in lastAlertAt && now - lastAlertAt[reasonKey] < AdminAlertCooldown {
        return false;
      }
      lastAlertAt := lastAlertAt[reasonKey := now];
      if !hasNotifier {
        return false;
      }
      return true;
    }
  }
}
