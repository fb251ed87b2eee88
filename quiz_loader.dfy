/**
 * The question loader (app/services/quiz_loader.py): the spreadsheet column index,
 * the row filter of the spreadsheet reader, the `DONE|q1|a1|…` message that hands
 * loaded questions on, its decoder `collect_questions`, and the duplicate check of
 * `save_questions_to_db`.
 */
module QuizLoader {
  import opened Wrappers
  import Text

  /** A question with its answer, in loading order. */
  type QA = (string, string)

  // ---------------------------------------------------------------------
  // Spreadsheet columns
  // ---------------------------------------------------------------------

  predicate IsAsciiLetter(c: char) {
    ('a' <= c <= 'z') || ('A' <= c <= 'Z')
  }

  function Upper(c: char): char {
    if 'a' <= c <= 'z' then (c as int - 32) as char else c
  }

  predicate IsColumnLetter(c: char) {
    'A' <= c <= 'Z'
  }

  /** The letters of a cell reference, upper-cased, in order. */
  function Letters(cellRef: string): (r: string)
    ensures forall c :: c in r ==> IsColumnLetter(c)
  {
    if cellRef == [] then []
    else
      var rest := Letters(cellRef[..|cellRef| - 1]);
      var c := cellRef[|cellRef| - 1];
      if IsAsciiLetter(c) then rest + [Upper(c)] else rest
  }

  /** The value of one column letter: `A` is 1, `Z` is 26. */
  function Digit(c: char): int {
    c as int - 'A' as int + 1
  }

  /** The column number that upper-case letters spell, in bijective base 26. */
  function ColumnValue(letters: string): int {
    if letters == [] then 0
    else ColumnValue(letters[..|letters| - 1]) * 26 + Digit(letters[|letters| - 1])
  }

  /** `_column_index`. */
  method ColumnIndex(cellRef: string) returns (idx: int)
    ensures idx == ColumnValue(Letters(cellRef))
  {
    var letters := Letters(cellRef);
    idx := 0;
    var i := 0;
    while i < |letters|
      invariant 0 <= i <= |letters|
      invariant idx == ColumnValue(letters[..i])
    {
      assert letters[..i + 1][..i] == letters[..i];
      idx := idx * 26 + (letters[i] as int - 'A' as int + 1);
      i := i + 1;
    }
    assert letters[..i] == letters;
  }

  /** The letters of column `n` (from 1), the inverse of `ColumnValue`. */
  function ColumnName(n: int): (r: string)
    requires n >= 1
    ensures r != [] && forall c :: c in r ==> IsColumnLetter(c)
    decreases n
  {
    var q := (n - 1) / 26;
    var letter := ('A' as int + (n - 1) % 26) as char;
    if q == 0 then [letter] else ColumnName(q) + [letter]
  }

  /** Every column number has a name that reads back as that number. */
  lemma {:induction false} ColumnNameValue(n: int)
    requires n >= 1
    ensures ColumnValue(ColumnName(n)) == n
    decreases n
  {
    var q := (n - 1) / 26;
    var r := ColumnName(n);
    assert r[..|r| - 1] == if q == 0 then [] else ColumnName(q);
    if q != 0 {
      ColumnNameValue(q);
    }
  }

  lemma DivMod26(a: int, b: int)
    requires a >= 0 && 0 <= b < 26
    ensures (a * 26 + b) / 26 == a && (a * 26 + b) % 26 == b
  {
  }

  /** Every non-empty run of column letters is the name of its value, so the column
      index is a bijection between letter runs and positive numbers. */
  lemma {:induction false} ColumnValueName(letters: string)
    requires letters != [] && forall c :: c in letters ==> IsColumnLetter(c)
    ensures ColumnValue(letters) >= 1
    ensures ColumnName(ColumnValue(letters)) == letters
    decreases |letters|
  {
    var init := letters[..|letters| - 1];
    var last := letters[|letters| - 1];
    assert last in letters;
    assert letters == init + [last];
    var m := ColumnValue(init);
    assert ColumnValue(letters) == m * 26 + Digit(last);
    if init == [] {
      ColumnNameLetter(last);
      assert ColumnName(ColumnValue(letters)) == letters;
    } else {
      assert forall c :: c in init ==> c in letters;
      ColumnValueName(init);
      ColumnNameStep(m, last);
      assert ColumnName(ColumnValue(letters)) == letters;
    }
  }

  /** A single letter names its own value. */
  lemma ColumnNameLetter(last: char)
    requires IsColumnLetter(last)
    ensures 1 <= Digit(last) <= 26 && ColumnName(Digit(last)) == [last]
  {
  }

  /** Appending one letter to the name of `m` names `m * 26` plus that letter's value. */
  lemma ColumnNameStep(m: int, last: char)
    requires m >= 1 && IsColumnLetter(last)
    ensures ColumnName(m * 26 + Digit(last)) == ColumnName(m) + [last]
  {
    var d := Digit(last);
    var n := m * 26 + d;
    DivMod26(m, d - 1);
    assert (n - 1) / 26 == m && (n - 1) % 26 == d - 1;
    assert ('A' as int + (n - 1) % 26) as char == last;
  }

  /** Digits and other characters are ignored and case does not matter. */
  lemma ColumnIndexExamples()
    ensures ColumnValue(Letters("A")) == 1
    ensures ColumnValue(Letters("Z")) == 26
    ensures ColumnValue(Letters("AA")) == 27
    ensures ColumnValue(Letters("B7")) == 2
    ensures ColumnValue(Letters("ab12")) == 28
  {
    LettersExamples();
    assert ColumnValue("AA") == 27 by { assert "AA"[..1] == "A"; }
    assert ColumnValue("AB") == 28 by { assert "AB"[..1] == "A"; }
  }

  lemma LettersExamples()
    ensures Letters("A") == "A" && Letters("Z") == "Z"
    ensures Letters("AA") == "AA" && Letters("B7") == "B" && Letters("ab12") == "AB"
  {
    assert Letters("AA") == "AA" by { assert "AA"[..1] == "A"; }
    assert Letters("B7") == "B" by { assert "B7"[..1] == "B"; }
    LettersAb12();
  }

  lemma LettersAb12()
    ensures Letters("ab12") == "AB"
  {
    assert Letters("a") == "A";
    assert Letters("ab") == "AB" by { assert "ab"[..1] == "a"; }
    assert Letters("ab1") == "AB" by { assert "ab1"[..2] == "ab"; }
    assert "ab12"[..3] == "ab1";
  }

  // ---------------------------------------------------------------------
  // The spreadsheet row filter
  // ---------------------------------------------------------------------

  /** A cell of a sheet row: its reference (`B7`) and its value, missing when the cell
      has no `<v>` element. */
  datatype Cell = Cell(ref: string, value: Option<string>)

  /** The `values` dictionary of one row: column number to whitespace-collapsed value,
      a later cell of the same column replacing an earlier one. */
  function RowValues(cells: seq<Cell>): map<int, string> {
    if cells == [] then map[] else RowStep(RowValues(cells[..|cells| - 1]), cells[|cells| - 1])
  }

  /** One cell's update of the `values` dictionary. */
  function RowStep(values: map<int, string>, cell: Cell): map<int, string> {
    if cell.value.None? then values
    else values[ColumnValue(Letters(cell.ref)) := Text.CollapseSpaces(cell.value.value)]
  }

  /** `values.get(column, "")`. */
  function Column(values: map<int, string>, column: int): string {
    if column in values then values[column] else ""
  }

  /** The row is kept: both columns filled and not the header row. */
  predicate KeepRow(values: map<int, string>) {
    var question := Column(values, 1);
    var answer := Column(values, 2);
    question != "" && answer != ""
    && !(Text.LowerStr(question) == "вопрос" && Text.LowerStr(answer) == "ответ")
  }

  /** The pair of a row, or nothing when the row is dropped. */
  function Kept(row: seq<Cell>): seq<QA> {
    var values := RowValues(row);
    if KeepRow(values) then [(Column(values, 1), Column(values, 2))] else []
  }

  /** The pairs of the kept rows among `rows`, in order. */
  function KeptPairs(rows: seq<seq<Cell>>): seq<QA> {
    if rows == [] then [] else KeptPairs(rows[..|rows| - 1]) + Kept(rows[|rows| - 1])
  }

  /** The cell loop of `_read_xlsx_questions` for one row. */
  method ReadRowValues(cells: seq<Cell>) returns (values: map<int, string>)
    ensures values == RowValues(cells)
  {
    values := map[];
    var j := 0;
    while j < |cells|
      invariant 0 <= j <= |cells|
      invariant values == RowValues(cells[..j])
    {
      var cell := cells[j];
      var column := ColumnIndex(cell.ref);
      assert RowValues(cells[..j + 1]) == RowStep(RowValues(cells[..j]), cell) by {
        assert cells[..j + 1][..j] == cells[..j];
        assert cells[..j + 1][j] == cell;
      }
      if cell.value.Some? {
        values := values[column := Text.CollapseSpaces(cell.value.value)];
      }
      j := j + 1;
    }
    assert cells[..j] == cells;
  }

  /** The row loop of `_read_xlsx_questions`, from the parsed rows on: the first row is
      skipped as the header. */
  method ReadQuestions(rows: seq<seq<Cell>>) returns (questions: seq<QA>)
    ensures questions == if rows == [] then [] else KeptPairs(rows[1..])
  {
    questions := [];
    if rows == [] {
      return;
    }
    var body := rows[1..];
    var i := 0;
    while i < |body|
      invariant 0 <= i <= |body|
      invariant questions == KeptPairs(body[..i])
    {
      assert body[..i + 1][..i] == body[..i];
      var values := ReadRowValues(body[i]);
      if KeepRow(values) {
        questions := questions + [(Column(values, 1), Column(values, 2))];
      }
      assert questions == KeptPairs(body[..i]) + Kept(body[i]);
      i := i + 1;
    }
    assert body[..i] == body;
  }

  /** Collapsing whitespace twice is collapsing it once. */
  lemma CollapseSpacesIdempotent(s: string)
    ensures Text.CollapseSpaces(Text.CollapseSpaces(s)) == Text.CollapseSpaces(s)
  {
    Text.SplitAreWords(s);
    Text.SplitJoin(Text.Split(s));
  }

  /** Every column value of a row has its whitespace collapsed already. */
  lemma {:induction false} RowValuesCollapsed(cells: seq<Cell>, k: int)
    requires k in RowValues(cells)
    ensures Text.CollapseSpaces(RowValues(cells)[k]) == RowValues(cells)[k]
  {
    var init := cells[..|cells| - 1];
    var cell := cells[|cells| - 1];
    if cell.value.Some? && k == ColumnValue(Letters(cell.ref)) {
      CollapseSpacesIdempotent(cell.value.value);
    } else {
      RowValuesCollapsed(init, k);
    }
  }

  /** A pair is read exactly when it is the pair of a kept row. */
  lemma {:induction false} KeptPairsIff(rows: seq<seq<Cell>>, p: QA)
    ensures p in KeptPairs(rows) <==> exists i :: 0 <= i < |rows| && p in Kept(rows[i])
  {
    if rows != [] {
      var init := rows[..|rows| - 1];
      KeptPairsIff(init, p);
      if p in KeptPairs(init) {
        var i :| 0 <= i < |init| && p in Kept(init[i]);
        assert rows[i] == init[i];
      }
      if exists i :: 0 <= i < |rows| && p in Kept(rows[i]) {
        var i :| 0 <= i < |rows| && p in Kept(rows[i]);
        if i < |rows| - 1 {
          assert init[i] == rows[i];
        }
      }
    }
  }

  /** Every pair read has a non-empty question and answer, with whitespace collapsed,
      and is not the header row. */
  lemma KeptRowFacts(row: seq<Cell>, p: QA)
    requires p in Kept(row)
    ensures p.0 != "" && p.1 != ""
    ensures !(Text.LowerStr(p.0) == "вопрос" && Text.LowerStr(p.1) == "ответ")
    ensures Text.CollapseSpaces(p.0) == p.0 && Text.CollapseSpaces(p.1) == p.1
  {
    var values := RowValues(row);
    RowValuesCollapsed(row, 1);
    RowValuesCollapsed(row, 2);
  }

  // ---------------------------------------------------------------------
  // The DONE message
  // ---------------------------------------------------------------------

  /** `"|".join(parts)`. */
  function JoinBar(parts: seq<string>): string {
    if |parts| == 0 then ""
    else if |parts| == 1 then parts[0]
    else parts[0] + "|" + JoinBar(parts[1..])
  }

  /** `s.split("|")`: the pieces between bars, empty ones included. */
  function SplitBar(s: string): (parts: seq<string>)
    ensures |parts| >= 1
  {
    if s == [] then [""]
    else
      var rest := SplitBar(s[1..]);
      if s[0] == '|' then [""] + rest
      else [[s[0]] + rest[0]] + rest[1..]
  }

  /** A piece without a bar followed by a bar splits off as one part. */
  lemma {:induction false} SplitBarPiece(w: string, rest: string)
    requires '|' !in w
    ensures SplitBar(w + rest) == [w + SplitBar(rest)[0]] + SplitBar(rest)[1..]
  {
    if w != [] {
      assert (w + rest)[0] == w[0];
      assert (w + rest)[1..] == w[1..] + rest;
      SplitBarPiece(w[1..], rest);
      assert [w[0]] + (w[1..] + SplitBar(rest)[0]) == w + SplitBar(rest)[0];
    } else {
      assert w + rest == rest;
      assert w + SplitBar(rest)[0] == SplitBar(rest)[0];
      assert [SplitBar(rest)[0]] + SplitBar(rest)[1..] == SplitBar(rest);
    }
  }

  /** Round trip: splitting joined parts that contain no bar gives the parts back. */
  lemma {:induction false} SplitJoinBar(parts: seq<string>)
    requires |parts| >= 1 && forall p :: p in parts ==> '|' !in p
    ensures SplitBar(JoinBar(parts)) == parts
  {
    assert parts[0] in parts;
    if |parts| == 1 {
      SplitBarPiece(parts[0], "");
      assert parts[0] + "" == parts[0];
    } else {
      assert forall p :: p in parts[1..] ==> p in parts;
      SplitJoinBar(parts[1..]);
      var tail := "|" + JoinBar(parts[1..]);
      assert JoinBar(parts) == parts[0] + tail;
      SplitBarPiece(parts[0], tail);
      assert tail[1..] == JoinBar(parts[1..]);
      assert SplitBar(tail) == [""] + parts[1..];
      assert parts[0] + "" == parts[0];
    }
  }

  /** The questions and answers in a row: `q1, a1, q2, a2, …`. */
  function Flatten(questions: seq<QA>): seq<string> {
    if questions == [] then [] else [questions[0].0, questions[0].1] + Flatten(questions[1..])
  }

  /** The message `load_questions_from_xlsx` ends with. */
  const ReadingMessage := "Читаю вопросы из viktorinavopros_QA.xlsx..."

  /** The message built from the read questions: `DONE`, then every question and its
      answer, joined by bars. */
  function DoneMessage(questions: seq<QA>): string {
    JoinBar(["DONE"] + Flatten(questions))
  }

  /** The DONE builder of `load_questions_from_xlsx`: the bare "DONE" without questions,
      otherwise the parts list grown pair by pair and joined. */
  method BuildDoneMessage(questions: seq<QA>) returns (message: string)
    ensures message == DoneMessage(questions)
  {
    if questions == [] {
      assert ["DONE"] + Flatten(questions) == ["DONE"];
      return "DONE";
    }
    var parts := ["DONE"];
    var i := 0;
    while i < |questions|
      invariant 0 <= i <= |questions|
      invariant parts + Flatten(questions[i..]) == ["DONE"] + Flatten(questions)
    {
      assert Flatten(questions[i..]) == [questions[i].0, questions[i].1] + Flatten(questions[i + 1..]);
      parts := parts + [questions[i].0];
      parts := parts + [questions[i].1];
      i := i + 1;
    }
    assert Flatten(questions[i..]) == [];
    assert parts == ["DONE"] + Flatten(questions);
    message := JoinBar(parts);
  }

  /** The progress messages of `load_questions_from_xlsx`: a bare "DONE" when the file
      is missing. */
  method LoadQuestionsFromXlsx(fileExists: bool, rows: seq<seq<Cell>>) returns (messages: seq<string>)
    ensures !fileExists ==> messages == [ReadingMessage, "DONE"]
    ensures fileExists ==> messages == [ReadingMessage, DoneMessage(if rows == [] then [] else KeptPairs(rows[1..]))]
  {
    if !fileExists {
      return [ReadingMessage, "DONE"];
    }
    var questions := ReadQuestions(rows);
    var message := BuildDoneMessage(questions);
    messages := [ReadingMessage, message];
  }

  /** The pairs `(parts[i], parts[i + 1])` for `i = from, from + 2, …` while both exist. */
  function Pairs(parts: seq<string>, from: nat): seq<QA>
    decreases |parts| - from
  {
    if from + 1 < |parts| then [(parts[from], parts[from + 1])] + Pairs(parts, from + 2) else []
  }

  /** The questions one progress message carries: none unless it starts with "DONE";
      the fields after "DONE" taken two by two, a trailing single field dropped. */
  function DecodeMessage(message: string): seq<QA> {
    if "DONE" <= message then
      var parts := SplitBar(message);
      if |parts| > 1 then Pairs(parts, 1) else []
    else []
  }

  function Collected(messages: seq<string>): seq<QA> {
    if messages == [] then [] else Collected(messages[..|messages| - 1]) + DecodeMessage(messages[|messages| - 1])
  }

  /** `collect_questions`. */
  method CollectQuestions(messages: seq<string>) returns (questions: seq<QA>)
    ensures questions == Collected(messages)
  {
    questions := [];
    var k := 0;
    while k < |messages|
      invariant 0 <= k <= |messages|
      invariant questions == Collected(messages[..k])
    {
      var progress := messages[k];
      ghost var before := questions;
      assert Collected(messages[..k + 1]) == before + DecodeMessage(progress) by {
        assert messages[..k + 1][..k] == messages[..k];
      }
      if "DONE" <= progress {
        var parts := SplitBar(progress);
        if |parts| > 1 {
          questions := AppendPairs(questions, parts);
        }
      }
      assert questions == before + DecodeMessage(progress);
      k := k + 1;
    }
    assert messages[..k] == messages;
  }

  /** The inner loop of `collect_questions`: the fields from index 1 on, two by two. */
  method AppendPairs(init: seq<QA>, parts: seq<string>) returns (questions: seq<QA>)
    ensures questions == init + Pairs(parts, 1)
  {
    questions := init;
    var i := 1;
    while i < |parts| - 1
      invariant 1 <= i
      invariant questions + Pairs(parts, i) == init + Pairs(parts, 1)
      decreases |parts| - i
    {
      assert Pairs(parts, i) == [(parts[i], parts[i + 1])] + Pairs(parts, i + 2);
      questions := questions + [(parts[i], parts[i + 1])];
      i := i + 2;
    }
    assert Pairs(parts, i) == [];
  }

  lemma {:induction false} PairsFlatten(prefix: seq<string>, questions: seq<QA>)
    ensures Pairs(prefix + Flatten(questions), |prefix|) == questions
    decreases |questions|
  {
    if questions != [] {
      var q := questions[0];
      assert prefix + Flatten(questions) == (prefix + [q.0, q.1]) + Flatten(questions[1..]);
      PairsFlatten(prefix + [q.0, q.1], questions[1..]);
    } else {
      assert prefix + Flatten(questions) == prefix;
    }
  }

  lemma {:induction false} FlattenNoBar(questions: seq<QA>)
    requires forall q :: q in questions ==> '|' !in q.0 && '|' !in q.1
    ensures forall p :: p in Flatten(questions) ==> '|' !in p
  {
    if questions != [] {
      assert questions[0] in questions;
      assert forall q :: q in questions[1..] ==> q in questions;
      FlattenNoBar(questions[1..]);
    }
  }

  /** Round trip: collecting the messages of a load gives back the questions read,
      provided no question or answer contains a bar; a bare "DONE" gives nothing. */
  lemma DoneMessageRoundTrip(questions: seq<QA>)
    requires forall q :: q in questions ==> '|' !in q.0 && '|' !in q.1
    ensures DecodeMessage(DoneMessage(questions)) == questions
    ensures Collected([ReadingMessage, DoneMessage(questions)]) == questions
    ensures Collected([ReadingMessage, "DONE"]) == []
  {
    var parts := ["DONE"] + Flatten(questions);
    FlattenNoBar(questions);
    SplitJoinBar(parts);
    assert JoinBar(parts)[..4] == "DONE" by {
      if |parts| > 1 {
        assert JoinBar(parts) == "DONE" + "|" + JoinBar(parts[1..]);
      }
    }
    PairsFlatten(["DONE"], questions);
    if questions == [] {
      assert |parts| == 1;
    }
    assert !("DONE" <= ReadingMessage) by {
      assert ReadingMessage[0] == 'Ч';
    }
    assert DecodeMessage(ReadingMessage) == [];
    assert Collected([ReadingMessage]) == [] by {
      assert [ReadingMessage][..0] == [];
    }
    assert [ReadingMessage, DoneMessage(questions)][..1] == [ReadingMessage];
    assert [ReadingMessage][..0] == [];
    assert [ReadingMessage, "DONE"][..1] == [ReadingMessage];
    assert SplitBar("DONE") == ["DONE"] by {
      SplitBarPiece("DONE", "");
      assert "DONE" + "" == "DONE";
    }
  }

  // ---------------------------------------------------------------------
  // Saving without duplicates
  // ---------------------------------------------------------------------

  /** The questions of `questions` that are saved when the normalised texts in `seen`
      are taken: the first of each new normalised text. */
  function Dedup(seen: set<string>, questions: seq<QA>): seq<QA>
    decreases |questions|
  {
    if questions == [] then []
    else
      var key := Text.NormalizeSpacing(questions[0].0);
      if key in seen then Dedup(seen, questions[1..])
      else [questions[0]] + Dedup(seen + {key}, questions[1..])
  }

  function Keys(questions: seq<QA>): set<string> {
    set q | q in questions :: Text.NormalizeSpacing(q.0)
  }

  /** `save_questions_to_db`: the rows it adds, in order, and their number. */
  method SaveQuestionsToDb(existing: set<string>, questions: seq<QA>) returns (added: seq<QA>, count: nat)
    ensures added == Dedup(set q | q in existing :: Text.NormalizeSpacing(q), questions)
    ensures count == |added|
  {
    var existingNormalized := set q | q in existing :: Text.NormalizeSpacing(q);
    ghost var start := existingNormalized;
    added := [];
    count := 0;
    var i := 0;
    while i < |questions|
      invariant 0 <= i <= |questions|
      invariant count == |added|
      invariant added + Dedup(existingNormalized, questions[i..]) == Dedup(start, questions)
    {
      var question := questions[i].0;
      var normalized := Text.NormalizeSpacing(question);
      DedupStep(existingNormalized, questions, i);
      if normalized in existingNormalized {
        i := i + 1;
        continue;
      }
      added := added + [questions[i]];
      existingNormalized := existingNormalized + {normalized};
      count := count + 1;
      i := i + 1;
    }
  }

  /** One step of the duplicate check: the question at `i` is skipped when its normalised
      text is taken, and otherwise kept and its text taken. */
  lemma DedupStep(seen: set<string>, questions: seq<QA>, i: nat)
    requires i < |questions|
    ensures var key := Text.NormalizeSpacing(questions[i].0);
      Dedup(seen, questions[i..])
        == if key in seen then Dedup(seen, questions[i + 1..])
           else [questions[i]] + Dedup(seen + {key}, questions[i + 1..])
  {
    assert questions[i..][1..] == questions[i + 1..];
  }

  /** What is saved comes from the batch and never has a normalised text that was
      taken. */
  lemma {:induction false} DedupFresh(seen: set<string>, questions: seq<QA>, q: QA)
    requires q in Dedup(seen, questions)
    ensures q in questions && Text.NormalizeSpacing(q.0) !in seen
    decreases |questions|
  {
    var key := Text.NormalizeSpacing(questions[0].0);
    if key in seen {
      DedupFresh(seen, questions[1..], q);
    } else if q != questions[0] {
      DedupFresh(seen + {key}, questions[1..], q);
    }
  }

  /** No two saved questions share a normalised text. */
  lemma {:induction false} DedupDistinct(seen: set<string>, questions: seq<QA>, i: nat, j: nat)
    requires i < j < |Dedup(seen, questions)|
    ensures Text.NormalizeSpacing(Dedup(seen, questions)[i].0) != Text.NormalizeSpacing(Dedup(seen, questions)[j].0)
    decreases |questions|
  {
    var d := Dedup(seen, questions);
    var key := Text.NormalizeSpacing(questions[0].0);
    var rest := questions[1..];
    if key in seen {
      assert d == Dedup(seen, rest);
      DedupDistinct(seen, rest, i, j);
    } else {
      var tail := Dedup(seen + {key}, rest);
      assert d == [questions[0]] + tail;
      var b := tail[j - 1];
      assert d[j] == b;
      if i == 0 {
        assert b in tail;
        DedupFresh(seen + {key}, rest, b);
        assert d[i] == questions[0];
        assert Text.NormalizeSpacing(d[i].0) == key;
        assert Text.NormalizeSpacing(b.0) != key;
      } else {
        var a := tail[i - 1];
        DedupDistinct(seen + {key}, rest, i - 1, j - 1);
        assert d[i] == a;
      }
    }
  }

  /** Every new normalised text of the batch is saved, once. */
  lemma {:induction false} DedupKeys(seen: set<string>, questions: seq<QA>)
    ensures Keys(Dedup(seen, questions)) == Keys(questions) - seen
    decreases |questions|
  {
    if questions != [] {
      var q := questions[0];
      var key := Text.NormalizeSpacing(q.0);
      var rest := questions[1..];
      assert Keys(questions) == {key} + Keys(rest) by {
        assert forall x :: x in questions <==> x == q || x in rest;
      }
      if key in seen {
        DedupKeys(seen, rest);
      } else {
        DedupKeys(seen + {key}, rest);
        var tail := Dedup(seen + {key}, rest);
        assert Keys([q] + tail) == {key} + Keys(tail) by {
          assert forall x :: x in [q] + tail <==> x == q || x in tail;
        }
      }
    }
  }

  /** Saving the batch again, once its questions are in, adds nothing. */
  lemma SaveAgainAddsNothing(seen: set<string>, questions: seq<QA>)
    ensures Dedup(seen + Keys(Dedup(seen, questions)), questions) == []
  {
    DedupKeys(seen, questions);
    NothingNewAddsNothing(seen + Keys(Dedup(seen, questions)), questions);
  }

  /** A batch whose normalised texts are all taken adds nothing. */
  lemma {:induction false} NothingNewAddsNothing(seen: set<string>, questions: seq<QA>)
    requires Keys(questions) <= seen
    ensures Dedup(seen, questions) == []
    decreases |questions|
  {
    if questions != [] {
      assert questions[0] in questions;
      assert Keys(questions[1..]) <= Keys(questions) by {
        assert forall x :: x in questions[1..] ==> x in questions;
      }
      NothingNewAddsNothing(seen, questions[1..]);
    }
  }
}
