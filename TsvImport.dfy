/** The question import of the host page (`parseTsvFile` in
    src/app/host/page.tsx): a tab-separated file with a header line becomes a
    list of four-answer questions whose answers are shuffled. Decoding the
    bytes and splitting the text into cells are not part of this model; the
    input is the header line and the non-empty data lines, already split. */
module TsvImport {

  import opened Optional
  import opened QuizTypes
  import opened JsText
  import opened SeqOps
  import opened Shuffle

  /** The split file: the header cells and, for every non-empty data line,
      its cells. */
  datatype TsvTable = TsvTable(headers: seq<string>, rows: seq<seq<string>>)

  /** Why a file is refused. */
  datatype ImportError = NoDataRows | MissingColumns(columns: seq<string>)

  datatype ImportResult = Imported(questions: seq<Question>) | Rejected(error: ImportError)

  /** The columns the import reads, in this order; the first five are
      required. */
  const Columns: seq<string> := ["question", "correct", "wrong1", "wrong2", "wrong3", "explanation", "image"]

  /** The columns a file must have, in the order they are reported. */
  const RequiredColumns: seq<string> := Columns[..5]

  /** The time limit given to every imported question. */
  const ImportedTimeLimit := 30

  /** `transformHeader`: `header.trim().toLowerCase()`; the name it gives
      has no surrounding whitespace. */
  function NormalizeHeader(h: string): (r: string)
    ensures IsTrimmed(r)
  {
    LowerAsciiTrimmed(Trim(h));
    LowerAscii(Trim(h))
  }

  lemma LowerCharKeepsSpace(c: char)
    ensures IsWhitespace(LowerChar(c)) == IsWhitespace(c)
  {
    if 'A' <= c <= 'Z' {
      assert 'a' <= LowerChar(c) <= 'z';
    }
  }

  /** A normalized header has no capital letters. */
  lemma NormalizeHeaderShape(h: string)
    ensures forall i :: 0 <= i < |NormalizeHeader(h)| ==> !('A' <= NormalizeHeader(h)[i] <= 'Z')
  {
    assert NormalizeHeader(h) == LowerAscii(Trim(h));
    LowerAsciiHasNoUpper(Trim(h));
  }

  lemma LowerAsciiTrimmed(t: string)
    requires IsTrimmed(t)
    ensures IsTrimmed(LowerAscii(t))
  {
    if |t| > 0 {
      LowerCharKeepsSpace(t[0]);
      LowerCharKeepsSpace(t[|t| - 1]);
    }
  }

  /** A header normalizes to the empty name exactly when it is made only of
      whitespace. */
  lemma NormalizeHeaderBlank(h: string)
    ensures NormalizeHeader(h) == "" <==> IsBlank(h)
  {
    BlankIffTrimEmpty(h);
  }

  /** Normalizing a normalized header changes nothing. */
  lemma NormalizeHeaderIdempotent(h: string)
    ensures NormalizeHeader(NormalizeHeader(h)) == NormalizeHeader(h)
  {
    var r := NormalizeHeader(h);
    NormalizeHeaderShape(h);
    TrimOfTrimmed(r);
    LowerAsciiFixed(r);
    assert NormalizeHeader(r) == LowerAscii(Trim(r));
  }

  /** A trimmed name without capitals is its own normal form. */
  lemma NormalFormFixed(s: string)
    requires IsTrimmed(s) && NoUpper(s)
    ensures NormalizeHeader(s) == s
  {
    TrimOfTrimmed(s);
    LowerAsciiOfNoUpper(s);
  }

  /** Every column name is already in normal form, so a header line that
      spells the names exactly is read as those names. */
  lemma ColumnNormalized(k: nat)
    requires k < 7
    ensures NormalizeHeader(Columns[k]) == Columns[k]
  {
    NormalFormFixed(Columns[k]);
  }

  /** The length and the last letter of column `k`, which tell the columns
      apart. */
  function ColumnSignature(k: nat): (int, char) {
    if k == 0 then (8, 'n') else if k == 1 then (7, 't') else if k == 2 then (6, '1')
    else if k == 3 then (6, '2') else if k == 4 then (6, '3') else if k == 5 then (11, 'n')
    else (5, 'e')
  }

  lemma ColumnHasSignature(k: nat)
    requires k < |Columns|
    ensures |Columns[k]| > 0 && (|Columns[k]|, Columns[k][|Columns[k]| - 1]) == ColumnSignature(k)
  {
    if k == 0 { assert Columns[0] == "question"; }
    else if k == 1 { assert Columns[1] == "correct"; }
    else if k == 2 { assert Columns[2] == "wrong1"; }
    else if k == 3 { assert Columns[3] == "wrong2"; }
    else if k == 4 { assert Columns[4] == "wrong3"; }
    else if k == 5 { assert Columns[5] == "explanation"; }
    else { assert Columns[6] == "image"; }
  }

  /** No two columns share a name. */
  lemma ColumnsDistinct(j: nat, k: nat)
    requires j < k < |Columns|
    ensures Columns[j] != Columns[k]
  {
    ColumnHasSignature(j);
    ColumnHasSignature(k);
  }

  /** The record of one data line: each normalized header name maps to the
      cell below it, cells beyond the shorter of the two lines are dropped,
      and of two headers with the same name the later one wins. */
  function Record(headers: seq<string>, cells: seq<string>): map<string, string>
    decreases |headers|
  {
    if |headers| == 0 || |cells| == 0 then map[]
    else map[NormalizeHeader(headers[0]) := cells[0]] + Record(headers[1..], cells[1..])
  }

  /** A header with no later namesake gives its own cell. */
  lemma {:induction false} RecordAt(headers: seq<string>, cells: seq<string>, k: nat)
    requires k < |headers| && k < |cells|
    requires forall m :: k < m < |headers| && m < |cells| ==> NormalizeHeader(headers[m]) != NormalizeHeader(headers[k])
    ensures NormalizeHeader(headers[k]) in Record(headers, cells)
    ensures Record(headers, cells)[NormalizeHeader(headers[k])] == cells[k]
    decreases k
  {
    if k > 0 {
      forall m | k - 1 < m < |headers| - 1 && m < |cells| - 1
        ensures NormalizeHeader(headers[1..][m]) != NormalizeHeader(headers[1..][k - 1])
      {
        assert headers[1..][m] == headers[m + 1];
      }
      RecordAt(headers[1..], cells[1..], k - 1);
      assert headers[1..][k - 1] == headers[k] && cells[1..][k - 1] == cells[k];
    } else {
      forall m | 0 <= m < |headers| - 1 && m < |cells| - 1
        ensures NormalizeHeader(headers[1..][m]) != NormalizeHeader(headers[0])
      {
        assert headers[1..][m] == headers[m + 1];
      }
      RecordLacks(headers[1..], cells[1..], NormalizeHeader(headers[0]));
    }
  }

  /** When the headers normalize to the names `names` and no later name
      repeats name `k`, the record maps name `k` to cell `k`. */
  lemma RecordOfNames(headers: seq<string>, names: seq<string>, cells: seq<string>, k: nat)
    requires |headers| == |names| == |cells| && k < |names|
    requires forall m :: 0 <= m < |headers| ==> NormalizeHeader(headers[m]) == names[m]
    requires forall m :: k < m < |names| ==> names[m] != names[k]
    ensures names[k] in Record(headers, cells) && Record(headers, cells)[names[k]] == cells[k]
  {
    RecordAt(headers, cells, k);
  }

  /** A name that no header normalizes to is absent from the record. */
  lemma {:induction false} RecordLacks(headers: seq<string>, cells: seq<string>, key: string)
    requires forall m :: 0 <= m < |headers| && m < |cells| ==> NormalizeHeader(headers[m]) != key
    ensures key !in Record(headers, cells)
    decreases |headers|
  {
    if |headers| > 0 && |cells| > 0 {
      forall m | 0 <= m < |headers| - 1 && m < |cells| - 1
        ensures NormalizeHeader(headers[1..][m]) != key
      {
        assert headers[1..][m] == headers[m + 1];
      }
      RecordLacks(headers[1..], cells[1..], key);
    }
  }

  /** `requiredColumns.filter(col => !headers.includes(col))`. */
  function MissingFrom(cols: seq<string>, keys: set<string>): (r: seq<string>)
    ensures |r| <= |cols|
    ensures forall c :: c in r <==> c in cols && c !in keys
    ensures r == [] <==> forall k :: 0 <= k < |cols| ==> cols[k] in keys
  {
    if |cols| == 0 then []
    else (if cols[0] in keys then [] else [cols[0]]) + MissingFrom(cols[1..], keys)
  }

  /** The missing columns are reported in the order they are listed. */
  lemma {:induction false} MissingFromInOrder(cols: seq<string>, keys: set<string>)
    ensures IsSubsequence(MissingFrom(cols, keys), cols)
  {
    if |cols| > 0 {
      var rest := MissingFrom(cols[1..], keys);
      MissingFromInOrder(cols[1..], keys);
      if cols[0] in keys {
        assert MissingFrom(cols, keys) == rest;
        SubsequenceSkip(cols[0], rest, cols[1..]);
      } else {
        assert MissingFrom(cols, keys) == [cols[0]] + rest;
        SubsequenceKeep(cols[0], rest, cols[1..]);
      }
      assert cols == [cols[0]] + cols[1..];
    }
  }

  /** Each absent column is reported as often as it is listed. */
  lemma {:induction false} MissingFromCounts(cols: seq<string>, keys: set<string>)
    ensures forall c :: multiset(MissingFrom(cols, keys))[c] == if c in keys then 0 else multiset(cols)[c]
  {
    if |cols| > 0 {
      MissingFromCounts(cols[1..], keys);
      assert cols == [cols[0]] + cols[1..];
      if cols[0] in keys {
        assert MissingFrom(cols, keys) == MissingFrom(cols[1..], keys);
      } else {
        assert MissingFrom(cols, keys) == [cols[0]] + MissingFrom(cols[1..], keys);
      }
    }
  }

  /** The required columns absent from the first record, in their order. */
  function Missing(t: TsvTable): seq<string>
    requires |t.rows| > 0
  {
    MissingFrom(RequiredColumns, Record(t.headers, t.rows[0]).Keys)
  }

  /** `row.<key>?.trim()`. */
  function Field(row: map<string, string>, key: string): Option<string> {
    if key in row then Some(Trim(row[key])) else None
  }

  /** The seven trimmed fields the loop reads from a record, `None` for an
      absent column. */
  datatype RowFields = RowFields(
    question: Option<string>,
    correct: Option<string>,
    wrong1: Option<string>,
    wrong2: Option<string>,
    wrong3: Option<string>,
    explanation: Option<string>,
    image: Option<string>)

  /** The fields of one record. */
  function FieldsOf(row: map<string, string>): RowFields {
    RowFields(Field(row, Columns[0]), Field(row, Columns[1]), Field(row, Columns[2]),
              Field(row, Columns[3]), Field(row, Columns[4]), Field(row, Columns[5]),
              Field(row, Columns[6]))
  }

  predicate TrimmedField(o: Option<string>) {
    o.Some? ==> IsTrimmed(o.value)
  }

  /** Every present field is trimmed. */
  predicate AllTrimmed(f: RowFields) {
    && TrimmedField(f.question) && TrimmedField(f.correct) && TrimmedField(f.wrong1)
    && TrimmedField(f.wrong2) && TrimmedField(f.wrong3) && TrimmedField(f.explanation)
    && TrimmedField(f.image)
  }

  /** What the loop reads from a record is trimmed. */
  lemma FieldsOfTrimmed(row: map<string, string>)
    ensures AllTrimmed(FieldsOf(row))
  {
  }

  /** The five required fields are all present and non-empty. */
  predicate Complete(f: RowFields) {
    Truthy(f.question) && Truthy(f.correct) && Truthy(f.wrong1) && Truthy(f.wrong2) && Truthy(f.wrong3)
  }

  /** `[correctAnswer, wrong1, wrong2, wrong3]`. */
  function Answers(f: RowFields): (r: seq<string>)
    requires Complete(f)
    ensures |r| == 4 && r[0] == f.correct.value
    ensures forall i :: 0 <= i < 4 ==> r[i] != ""
  {
    [f.correct.value, f.wrong1.value, f.wrong2.value, f.wrong3.value]
  }

  /** The shape every imported question has: trimmed non-empty text, four
      trimmed non-empty options, one correct answer that is one of them, the
      default time limit and the multiple-choice type. */
  predicate WellImported(q: Question) {
    && q.text != "" && IsTrimmed(q.text)
    && |q.options| == 4
    && (forall i :: 0 <= i < 4 ==> q.options[i] != "" && IsTrimmed(q.options[i]))
    && |q.correctAnswers| == 1 && KeyInRange(q)
    && q.timeLimit == ImportedTimeLimit
    && q.qtype == Some(Multiple)
  }

  lemma PermutedElements(s: seq<string>, t: seq<string>)
    requires multiset(s) == multiset(t)
    ensures forall i :: 0 <= i < |s| ==> s[i] in t
  {
    forall i | 0 <= i < |s|
      ensures s[i] in t
    {
      assert s[i] in multiset(s);
    }
  }

  /** The question a complete line becomes, from its trimmed text and its
      answers with the correct one first: the answers shuffled with the draws
      `js`, and the key the position where the correct answer ends up. */
  function ShuffledQuestion(id: string, text: string, answers: seq<string>, js: seq<int>,
                            explanation: Option<string>, image: Option<string>): (q: Question)
    requires |answers| == 4 && ValidChoices(js, 4)
    ensures q.text == text && |q.options| == 4 && |q.correctAnswers| == 1
  {
    var options := FisherYates(answers, js);
    Question(id, text, options, [IndexOf(options, answers[0])], ImportedTimeLimit,
             OrUndefined(explanation), OrUndefined(image), Some(Multiple))
  }

  /** The shuffled question keeps the text, rearranges the answers and marks
      the position the correct one moved to. */
  lemma ShuffledContents(id: string, text: string, answers: seq<string>, js: seq<int>,
                         explanation: Option<string>, image: Option<string>)
    requires |answers| == 4 && ValidChoices(js, 4)
    ensures var q := ShuffledQuestion(id, text, answers, js, explanation, image);
            && q.id == id && q.text == text && q.options == FisherYates(answers, js)
            && multiset(q.options) == multiset(answers)
            && |q.correctAnswers| == 1 && KeyInRange(q) && q.options[q.correctAnswers[0]] == answers[0]
            && q.timeLimit == ImportedTimeLimit && q.qtype == Some(Multiple)
            && q.explanation == OrUndefined(explanation) && q.image == OrUndefined(image)
  {
    var options := FisherYates(answers, js);
    FisherYatesPermutes(answers, js);
    assert answers[0] in multiset(options);
  }

  /** Trimmed non-empty text and answers give a well-formed question. */
  lemma ShuffledWellImported(id: string, text: string, answers: seq<string>, js: seq<int>,
                             explanation: Option<string>, image: Option<string>)
    requires |answers| == 4 && ValidChoices(js, 4)
    requires text != "" && IsTrimmed(text)
    requires forall i :: 0 <= i < 4 ==> answers[i] != "" && IsTrimmed(answers[i])
    ensures WellImported(ShuffledQuestion(id, text, answers, js, explanation, image))
  {
    var q := ShuffledQuestion(id, text, answers, js, explanation, image);
    ShuffledContents(id, text, answers, js, explanation, image);
    PermutedElements(q.options, answers);
  }

  /** The question a line with fields `f` becomes, or `None` when a required
      field is missing or empty. */
  function RowQuestion(f: RowFields, id: string, js: seq<int>): (r: Option<Question>)
    requires ValidChoices(js, 4)
    ensures r.Some? <==> Complete(f)
  {
    if !Complete(f) then None
    else Some(ShuffledQuestion(id, f.question.value, Answers(f), js, f.explanation, f.image))
  }

  /** What a complete line becomes: its text, its four answers rearranged
      with the correct one still marked, and the optional fields kept only
      when non-empty. */
  lemma RowQuestionContents(f: RowFields, id: string, js: seq<int>)
    requires ValidChoices(js, 4) && Complete(f)
    ensures var q := RowQuestion(f, id, js).value;
            && q.id == id && q.text == f.question.value
            && multiset(q.options) == multiset(Answers(f))
            && |q.correctAnswers| == 1 && KeyInRange(q)
            && q.options[q.correctAnswers[0]] == f.correct.value
            && q.explanation == OrUndefined(f.explanation)
            && q.image == OrUndefined(f.image)
  {
    ShuffledContents(id, f.question.value, Answers(f), js, f.explanation, f.image);
  }

  /** A complete line with trimmed fields gives a well-formed question. */
  lemma RowQuestionWellImported(f: RowFields, id: string, js: seq<int>)
    requires ValidChoices(js, 4) && Complete(f) && AllTrimmed(f)
    ensures WellImported(RowQuestion(f, id, js).value)
  {
    ShuffledWellImported(id, f.question.value, Answers(f), js, f.explanation, f.image);
  }

  /** Papa's output in header mode, read field by field: the fields of every
      data line. */
  function TableFields(t: TsvTable): (r: seq<RowFields>)
    ensures |r| == |t.rows| && forall k :: 0 <= k < |r| ==> r[k] == FieldsOf(Record(t.headers, t.rows[k]))
  {
    seq(|t.rows|, k requires 0 <= k < |t.rows| => FieldsOf(Record(t.headers, t.rows[k])))
  }

  /** Draws and ids for every data line. */
  predicate ValidDraws(n: nat, ids: seq<string>, draws: seq<seq<int>>) {
    |ids| == n && |draws| == n && forall k :: 0 <= k < |draws| ==> ValidChoices(draws[k], 4)
  }

  /** The questions of the first `n` lines, in file order. */
  function ImportRows(rows: seq<RowFields>, ids: seq<string>, draws: seq<seq<int>>, n: nat)
    : (r: seq<Question>)
    requires n <= |rows| && ValidDraws(|rows|, ids, draws)
    ensures |r| <= n
  {
    if n == 0 then []
    else
      var prev := ImportRows(rows, ids, draws, n - 1);
      var q := RowQuestion(rows[n - 1], ids[n - 1], draws[n - 1]);
      if q.Some? then prev + [q.value] else prev
  }

  /** Reference definition of the import: a file without data lines or
      without a required column is refused; otherwise every complete line
      gives a question and every incomplete one is skipped. */
  function ImportTable(t: TsvTable, ids: seq<string>, draws: seq<seq<int>>): (r: ImportResult)
    requires ValidDraws(|t.rows|, ids, draws)
    ensures |t.rows| == 0 ==> r == Rejected(NoDataRows)
    ensures |t.rows| > 0 ==> (r.Rejected? <==> |Missing(t)| > 0)
    ensures r.Rejected? && |t.rows| > 0 ==> r == Rejected(MissingColumns(Missing(t)))
    ensures r.Imported? ==> |r.questions| <= |t.rows|
  {
    if |t.rows| == 0 then Rejected(NoDataRows)
    else if |Missing(t)| > 0 then Rejected(MissingColumns(Missing(t)))
    else Imported(ImportRows(TableFields(t), ids, draws, |t.rows|))
  }

  lemma {:induction false} ImportRowsWellImported(rows: seq<RowFields>, ids: seq<string>,
                                                  draws: seq<seq<int>>, n: nat)
    requires n <= |rows| && ValidDraws(|rows|, ids, draws)
    requires forall k :: 0 <= k < |rows| ==> AllTrimmed(rows[k])
    ensures forall i :: 0 <= i < |ImportRows(rows, ids, draws, n)| ==>
              WellImported(ImportRows(rows, ids, draws, n)[i])
  {
    if n > 0 {
      ImportRowsWellImported(rows, ids, draws, n - 1);
      var q := RowQuestion(rows[n - 1], ids[n - 1], draws[n - 1]);
      if q.Some? {
        RowQuestionWellImported(rows[n - 1], ids[n - 1], draws[n - 1]);
      }
    }
  }

  /** Every imported question is well formed. */
  lemma ImportedWellFormed(t: TsvTable, ids: seq<string>, draws: seq<seq<int>>)
    requires ValidDraws(|t.rows|, ids, draws)
    ensures var r := ImportTable(t, ids, draws);
            r.Imported? ==> forall i :: 0 <= i < |r.questions| ==> WellImported(r.questions[i])
  {
    var rows := TableFields(t);
    forall k | 0 <= k < |rows|
      ensures AllTrimmed(rows[k])
    {
      FieldsOfTrimmed(Record(t.headers, t.rows[k]));
    }
    ImportRowsWellImported(rows, ids, draws, |t.rows|);
  }

  /** The number of complete lines among the first `n`. */
  function CompleteRows(rows: seq<RowFields>, n: nat): nat
    requires n <= |rows|
  {
    if n == 0 then 0
    else CompleteRows(rows, n - 1) + (if Complete(rows[n - 1]) then 1 else 0)
  }

  /** Exactly one question per complete line. */
  lemma {:induction false} ImportRowsCount(rows: seq<RowFields>, ids: seq<string>,
                                           draws: seq<seq<int>>, n: nat)
    requires n <= |rows| && ValidDraws(|rows|, ids, draws)
    ensures |ImportRows(rows, ids, draws, n)| == CompleteRows(rows, n)
  {
    if n > 0 {
      ImportRowsCount(rows, ids, draws, n - 1);
    }
  }

  /** When every line is complete, the import keeps them all, in order. */
  lemma ImportRowsAllComplete(rows: seq<RowFields>, ids: seq<string>, draws: seq<seq<int>>, n: nat)
    requires n <= |rows| && ValidDraws(|rows|, ids, draws)
    requires forall k :: 0 <= k < n ==> Complete(rows[k])
    ensures |ImportRows(rows, ids, draws, n)| == n
    ensures forall k :: 0 <= k < n ==>
              ImportRows(rows, ids, draws, n)[k] == RowQuestion(rows[k], ids[k], draws[k]).value
  {
    ImportRowsLength(rows, ids, draws, n);
    forall k | 0 <= k < n
      ensures ImportRows(rows, ids, draws, n)[k] == RowQuestion(rows[k], ids[k], draws[k]).value
    {
      ImportRowsAt(rows, ids, draws, n, k);
    }
  }

  lemma {:induction false} ImportRowsLength(rows: seq<RowFields>, ids: seq<string>,
                                            draws: seq<seq<int>>, n: nat)
    requires n <= |rows| && ValidDraws(|rows|, ids, draws)
    requires forall k :: 0 <= k < n ==> Complete(rows[k])
    ensures |ImportRows(rows, ids, draws, n)| == n
  {
    if n > 0 {
      ImportRowsLength(rows, ids, draws, n - 1);
    }
  }

  lemma {:induction false} ImportRowsAt(rows: seq<RowFields>, ids: seq<string>,
                                        draws: seq<seq<int>>, n: nat, k: nat)
    requires k < n <= |rows| && ValidDraws(|rows|, ids, draws)
    requires forall m :: 0 <= m < n ==> Complete(rows[m])
    ensures |ImportRows(rows, ids, draws, n)| == n
    ensures ImportRows(rows, ids, draws, n)[k] == RowQuestion(rows[k], ids[k], draws[k]).value
  {
    ImportRowsLength(rows, ids, draws, n);
    if k < n - 1 {
      ImportRowsAt(rows, ids, draws, n - 1, k);
    }
  }

  /** The body of the import loop for one record: the seven trimmed fields,
      the skip test and, for a complete line, the shuffle of its four answers
      in an array. */
  method ParseRow(row: map<string, string>, id: string, js: seq<int>) returns (r: Option<Question>)
    requires ValidChoices(js, 4)
    ensures r == RowQuestion(FieldsOf(row), id, js)
  {
    var questionText := Field(row, Columns[0]);
    var correctAnswer := Field(row, Columns[1]);
    var wrong1 := Field(row, Columns[2]);
    var wrong2 := Field(row, Columns[3]);
    var wrong3 := Field(row, Columns[4]);
    var explanation := Field(row, Columns[5]);
    var image := Field(row, Columns[6]);
    r := ParseFields(RowFields(questionText, correctAnswer, wrong1, wrong2, wrong3, explanation, image), id, js);
  }

  /** The rest of the loop body, once the fields are read. */
  method ParseFields(f: RowFields, id: string, js: seq<int>) returns (r: Option<Question>)
    requires ValidChoices(js, 4)
    ensures r == RowQuestion(f, id, js)
  {
    if !(Truthy(f.question) && Truthy(f.correct) && Truthy(f.wrong1) && Truthy(f.wrong2) && Truthy(f.wrong3)) {
      return None;
    }
    var answers := new string[4];
    answers[0], answers[1], answers[2], answers[3] := f.correct.value, f.wrong1.value, f.wrong2.value, f.wrong3.value;
    assert answers[..] == Answers(f);
    var shuffledAnswers := ShuffleArray(answers, js);
    var correctIndex := IndexOf(shuffledAnswers, f.correct.value);
    return Some(Question(id, f.question.value, shuffledAnswers, [correctIndex],
                         ImportedTimeLimit, OrUndefined(f.explanation), OrUndefined(f.image),
                         Some(Multiple)));
  }

  /** The import loop over the records of the table. */
  method ParseRows(t: TsvTable, ids: seq<string>, draws: seq<seq<int>>)
    returns (parsed: seq<Question>)
    requires ValidDraws(|t.rows|, ids, draws)
    ensures parsed == ImportRows(TableFields(t), ids, draws, |t.rows|)
  {
    ghost var rows := TableFields(t);
    parsed := [];
    var k := 0;
    while k < |t.rows|
      invariant 0 <= k <= |t.rows|
      invariant parsed == ImportRows(rows, ids, draws, k)
    {
      parsed := ParseNext(t, ids, draws, k, parsed);
      k := k + 1;
    }
  }

  /** One turn of the import loop: record `k` is parsed and, when complete,
      its question is appended. */
  method ParseNext(t: TsvTable, ids: seq<string>, draws: seq<seq<int>>, k: nat,
                   parsed: seq<Question>) returns (next: seq<Question>)
    requires k < |t.rows| && ValidDraws(|t.rows|, ids, draws)
    requires parsed == ImportRows(TableFields(t), ids, draws, k)
    ensures next == ImportRows(TableFields(t), ids, draws, k + 1)
  {
    var q := ParseRow(Record(t.headers, t.rows[k]), ids[k], draws[k]);
    next := if q.Some? then parsed + [q.value] else parsed;
  }

  /** `parseTsvFile` once the file is split: the two file checks, then the
      import loop. */
  method ParseTsv(t: TsvTable, ids: seq<string>, draws: seq<seq<int>>) returns (r: ImportResult)
    requires ValidDraws(|t.rows|, ids, draws)
    ensures r == ImportTable(t, ids, draws)
  {
    if |t.rows| == 0 {
      return Rejected(NoDataRows);
    }
    var missing := Missing(t);
    if |missing| > 0 {
      return Rejected(MissingColumns(missing));
    }
    var parsed := ParseRows(t, ids, draws);
    return Imported(parsed);
  }
}
