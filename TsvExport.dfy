/** The question export of the host page (`downloadTSV` in
    src/app/host/page.tsx): one line per question under a fixed header line,
    with the first correct answer in its own column and the other options
    after it. Serializing the table to text and saving it are not part of
    this model; the output is the header line and the rows of cells. */
module TsvExport {

  import opened Optional
  import opened QuizTypes
  import opened JsText
  import opened SeqOps
  import opened Shuffle
  import opened TsvImport
  import Authoring

  /** The header cells as a reader of the file sees them: the column names,
      with the byte order mark written in front of the content ending up in
      the first one. */
  const ExportHeaders: seq<string> := ["\U{FEFF}" + Columns[0]] + Columns[1..]

  /** `wrongOptions[k] || ''`: the `|| ''` never changes a string, so the
      cell is the wrong option itself, or `''` past the end. */
  function WrongCell(wrongs: seq<string>, k: nat): (r: string)
    ensures k < |wrongs| ==> r == wrongs[k]
    ensures k >= |wrongs| ==> r == ""
  {
    if k < |wrongs| then OrElse(wrongs[k], "") else ""
  }

  /** `q.options[firstCorrectIndex] || ''`: the option at the first correct
      index (0 for an empty key), or `''` when that index is not a position. */
  function CorrectCell(q: Question): (r: string)
    ensures var i := Authoring.FirstCorrect(q);
            r == if 0 <= i < |q.options| then q.options[i] else ""
  {
    var i := Authoring.FirstCorrect(q);
    if 0 <= i < |q.options| then OrElse(q.options[i], "") else ""
  }

  /** The cells of one question's line: its text, the option at the first
      correct index, the other options in order, and the optional fields with
      `''` for an absent one. */
  function ExportRow(q: Question): (r: seq<string>)
    ensures |r| == 7
    ensures r[0] == q.text
    ensures var i := Authoring.FirstCorrect(q);
            r[1] == if 0 <= i < |q.options| then q.options[i] else ""
    ensures var wrongs := WithoutIndex(q.options, Authoring.FirstCorrect(q));
            forall k :: 0 <= k < 3 ==> r[2 + k] == if k < |wrongs| then wrongs[k] else ""
    ensures r[5] == (if q.explanation.Some? then q.explanation.value else "")
    ensures r[6] == (if q.image.Some? then q.image.value else "")
  {
    var wrongs := WithoutIndex(q.options, Authoring.FirstCorrect(q));
    [q.text, CorrectCell(q), WrongCell(wrongs, 0), WrongCell(wrongs, 1), WrongCell(wrongs, 2),
     OptOrElse(q.explanation, ""), OptOrElse(q.image, "")]
  }

  /** `downloadTSV`: nothing for an empty quiz; otherwise the header line and
      one line per question, in order. */
  function DownloadTsv(qs: seq<Question>): (r: Option<TsvTable>)
    ensures r.None? <==> |qs| == 0
    ensures r.Some? ==> r.value.headers == ExportHeaders && |r.value.rows| == |qs|
    ensures r.Some? ==> forall i :: 0 <= i < |qs| ==> r.value.rows[i] == ExportRow(qs[i])
  {
    if |qs| == 0 then None
    else Some(TsvTable(ExportHeaders, seq(|qs|, i requires 0 <= i < |qs| => ExportRow(qs[i]))))
  }

  // ---------------------------------------------------------------------
  // Reading the exported header line back
  // ---------------------------------------------------------------------

  /** `trim` removes the byte order mark, so the first header reads as
      `question`. */
  lemma MarkedHeaderNormalizes()
    ensures NormalizeHeader(ExportHeaders[0]) == Columns[0]
  {
    var h := ExportHeaders[0];
    var plain := Columns[0];
    assert h[1..] == plain;
    assert IsTrimmed(plain);
    assert TrimStart(plain) == plain;
    assert TrimStart(h) == plain;
    assert Trim(h) == Trim(plain);
    ColumnNormalized(0);
  }

  /** Every exported header reads back as its column name. */
  lemma ExportHeaderNormalizes(k: nat)
    requires k < 7
    ensures NormalizeHeader(ExportHeaders[k]) == Columns[k]
  {
    if k == 0 {
      MarkedHeaderNormalizes();
    } else {
      assert ExportHeaders[k] == Columns[k];
      ColumnNormalized(k);
    }
  }

  /** The record of an exported line maps every column name to its cell. */
  lemma ExportRecord(cells: seq<string>)
    requires |cells| == 7
    ensures forall k :: 0 <= k < 7 ==>
              Columns[k] in Record(ExportHeaders, cells) && Record(ExportHeaders, cells)[Columns[k]] == cells[k]
  {
    forall m | 0 <= m < 7
      ensures NormalizeHeader(ExportHeaders[m]) == Columns[m]
    {
      ExportHeaderNormalizes(m);
    }
    forall k | 0 <= k < 7
      ensures Columns[k] in Record(ExportHeaders, cells) && Record(ExportHeaders, cells)[Columns[k]] == cells[k]
    {
      forall m | k < m < 7
        ensures Columns[m] != Columns[k]
      {
        ColumnsDistinct(k, m);
      }
      RecordOfNames(ExportHeaders, Columns, cells, k);
    }
  }

  /** The fields the import reads from an exported line are its trimmed cells. */
  lemma ExportedFields(cells: seq<string>)
    requires |cells| == 7
    ensures FieldsOf(Record(ExportHeaders, cells))
            == RowFields(Some(Trim(cells[0])), Some(Trim(cells[1])), Some(Trim(cells[2])),
                         Some(Trim(cells[3])), Some(Trim(cells[4])), Some(Trim(cells[5])),
                         Some(Trim(cells[6])))
  {
    ExportRecord(cells);
  }

  /** The exported header line has every column the import requires. */
  lemma ExportHasColumns(qs: seq<Question>)
    requires |qs| > 0
    ensures Missing(DownloadTsv(qs).value) == []
  {
    var t := DownloadTsv(qs).value;
    var keys := Record(t.headers, t.rows[0]).Keys;
    ExportRecord(t.rows[0]);
    assert forall k :: 0 <= k < |RequiredColumns| ==> RequiredColumns[k] in keys;
  }

  // ---------------------------------------------------------------------
  // Export followed by import
  // ---------------------------------------------------------------------

  /** A question the import can give back: a trimmed text and four trimmed,
      non-empty options, with the first correct index among them. */
  predicate Exportable(q: Question) {
    && q.text != "" && IsTrimmed(q.text)
    && |q.options| == 4
    && (forall i :: 0 <= i < 4 ==> q.options[i] != "" && IsTrimmed(q.options[i]))
    && 0 <= Authoring.FirstCorrect(q) < 4
  }

  /** The optional field exported and read back: `''` for an absent field,
      and `trim` of what was written. */
  lemma OptionalRoundTrip(o: Option<string>)
    requires TrimmedField(o)
    ensures OrUndefined(Some(Trim(OptOrElse(o, "")))) == OrUndefined(o)
  {
    match o
    case None =>
      assert Trim("") == "";
    case Some(s) =>
      TrimOfTrimmed(s);
      TrimOfTrimmed("");
  }

  lemma WrongsOfExportable(q: Question)
    requires Exportable(q)
    ensures var w := WithoutIndex(q.options, Authoring.FirstCorrect(q));
            |w| == 3 && forall k :: 0 <= k < 3 ==> w[k] != "" && IsTrimmed(w[k])
  {
    var i := Authoring.FirstCorrect(q);
    var w := WithoutIndex(q.options, i);
    forall k | 0 <= k < 3
      ensures w[k] != "" && IsTrimmed(w[k])
    {
      if k < i {
        assert w[k] == q.options[k];
      } else {
        assert w[k] == q.options[k + 1];
      }
    }
  }

  /** The fields an exportable question's line gives back on import. */
  lemma ExportableFields(q: Question)
    requires Exportable(q)
    ensures var w := WithoutIndex(q.options, Authoring.FirstCorrect(q));
            var f := FieldsOf(Record(ExportHeaders, ExportRow(q)));
            && |w| == 3
            && f.question == Some(q.text)
            && f.correct == Some(q.options[Authoring.FirstCorrect(q)])
            && f.wrong1 == Some(w[0]) && f.wrong2 == Some(w[1]) && f.wrong3 == Some(w[2])
            && (TrimmedField(q.explanation) ==> OrUndefined(f.explanation) == OrUndefined(q.explanation))
  {
    var i := Authoring.FirstCorrect(q);
    var w := WithoutIndex(q.options, i);
    var cells := ExportRow(q);
    ExportedFields(cells);
    WrongsOfExportable(q);
    TrimOfTrimmed(q.text);
    TrimOfTrimmed(q.options[i]);
    TrimOfTrimmed(w[0]);
    TrimOfTrimmed(w[1]);
    TrimOfTrimmed(w[2]);
    if TrimmedField(q.explanation) {
      OptionalRoundTrip(q.explanation);
    }
  }

  /** The fields of an exportable question's line as the import reads them:
      its text, the option at its first correct index and the other three
      options in order. */
  predicate ReadsBackAs(q: Question, f: RowFields)
    requires Exportable(q)
  {
    var i := Authoring.FirstCorrect(q);
    var w := WithoutIndex(q.options, i);
    && |w| == 3
    && f.question == Some(q.text) && f.correct == Some(q.options[i])
    && f.wrong1 == Some(w[0]) && f.wrong2 == Some(w[1]) && f.wrong3 == Some(w[2])
    && (TrimmedField(q.explanation) ==> OrUndefined(f.explanation) == OrUndefined(q.explanation))
  }

  /** A line read back as an exportable question gives a question with the
      same text, the same options in some order, the same correct answer and,
      when it was trimmed, the same explanation. */
  lemma FieldsRoundTrip(q: Question, f: RowFields, id: string, js: seq<int>)
    requires Exportable(q) && ValidChoices(js, 4) && ReadsBackAs(q, f)
    ensures var r := RowQuestion(f, id, js);
            && r.Some?
            && r.value.text == q.text
            && multiset(r.value.options) == multiset(q.options)
            && r.value.options[r.value.correctAnswers[0]] == q.options[Authoring.FirstCorrect(q)]
            && (TrimmedField(q.explanation) ==> r.value.explanation == OrUndefined(q.explanation))
  {
    ReadBackAnswers(q, f);
    RowQuestionContents(f, id, js);
  }

  /** The answers read back are the question's options, the correct one
      first. */
  lemma ReadBackAnswers(q: Question, f: RowFields)
    requires Exportable(q) && ReadsBackAs(q, f)
    ensures Complete(f)
    ensures Answers(f)[0] == q.options[Authoring.FirstCorrect(q)]
    ensures multiset(Answers(f)) == multiset(q.options)
  {
    var i := Authoring.FirstCorrect(q);
    var w := WithoutIndex(q.options, i);
    var a := Answers(f);
    assert a == [q.options[i], w[0], w[1], w[2]];
    assert w == [w[0], w[1], w[2]];
    assert a == [q.options[i]] + w;
    WithoutIndexMultiset(q.options, i);
  }

  /** Exporting an exportable question and importing its line gives a
      question with the same text, the same options in some order, the same
      correct answer and, when it was trimmed, the same explanation. */
  lemma RowRoundTrip(q: Question, id: string, js: seq<int>)
    requires Exportable(q) && ValidChoices(js, 4)
    ensures var r := RowQuestion(FieldsOf(Record(ExportHeaders, ExportRow(q))), id, js);
            && r.Some?
            && r.value.text == q.text
            && multiset(r.value.options) == multiset(q.options)
            && r.value.options[r.value.correctAnswers[0]] == q.options[Authoring.FirstCorrect(q)]
            && (TrimmedField(q.explanation) ==> r.value.explanation == OrUndefined(q.explanation))
  {
    ExportableFields(q);
    FieldsRoundTrip(q, FieldsOf(Record(ExportHeaders, ExportRow(q))), id, js);
  }

  /** A line whose `correct` or `wrong3` cell is empty is skipped. */
  lemma BlankCellSkipped(cells: seq<string>, id: string, js: seq<int>)
    requires |cells| == 7 && (cells[1] == "" || cells[4] == "") && ValidChoices(js, 4)
    ensures RowQuestion(FieldsOf(Record(ExportHeaders, cells)), id, js).None?
  {
    ExportedFields(cells);
    TrimOfTrimmed("");
  }

  /** A question with fewer than four options exports an empty `wrong3` (or
      an empty `correct`) and is skipped when the file is imported. */
  lemma ShortQuestionSkipped(q: Question, id: string, js: seq<int>)
    requires |q.options| < 4 && ValidChoices(js, 4)
    ensures RowQuestion(FieldsOf(Record(ExportHeaders, ExportRow(q))), id, js).None?
  {
    var i := Authoring.FirstCorrect(q);
    if 0 <= i < |q.options| {
      var wrongs := WithoutIndex(q.options, i);
      assert |wrongs| < 3;
      assert WrongCell(wrongs, 2) == "";
    } else {
      assert CorrectCell(q) == "";
    }
    BlankCellSkipped(ExportRow(q), id, js);
  }

  /** `r` is what the import gives back for the exportable question `q`: the
      same text, the same options in some order, and one correct index
      naming the option at `q`'s first correct index. */
  predicate Reimported(r: Question, q: Question) {
    && r.text == q.text
    && multiset(r.options) == multiset(q.options)
    && |r.correctAnswers| == 1 && 0 <= r.correctAnswers[0] < |r.options|
    && 0 <= Authoring.FirstCorrect(q) < |q.options|
    && r.options[r.correctAnswers[0]] == q.options[Authoring.FirstCorrect(q)]
  }

  /** Every line of an export of exportable questions reads back as its
      question. */
  lemma ExportReadsBack(qs: seq<Question>)
    requires |qs| > 0 && forall i :: 0 <= i < |qs| ==> Exportable(qs[i])
    ensures var rows := TableFields(DownloadTsv(qs).value);
            |rows| == |qs| && forall k :: 0 <= k < |rows| ==> ReadsBackAs(qs[k], rows[k])
  {
    var t := DownloadTsv(qs).value;
    var rows := TableFields(t);
    forall k | 0 <= k < |rows|
      ensures ReadsBackAs(qs[k], rows[k])
    {
      ExportableFields(qs[k]);
    }
  }

  /** Lines that read back as exportable questions are all complete. */
  lemma ReadBackComplete(qs: seq<Question>, rows: seq<RowFields>)
    requires |rows| == |qs|
    requires forall k :: 0 <= k < |qs| ==> Exportable(qs[k]) && ReadsBackAs(qs[k], rows[k])
    ensures forall k :: 0 <= k < |rows| ==> Complete(rows[k])
  {
    forall k | 0 <= k < |rows|
      ensures Complete(rows[k])
    {
      ReadBackAnswers(qs[k], rows[k]);
    }
  }

  /** Line `k` of lines that read back as exportable questions imports as
      question `k`. */
  lemma ImportReadBackAt(qs: seq<Question>, rows: seq<RowFields>, ids: seq<string>,
                         draws: seq<seq<int>>, k: nat)
    requires k < |rows| == |qs| && ValidDraws(|qs|, ids, draws)
    requires forall m :: 0 <= m < |qs| ==> Exportable(qs[m]) && ReadsBackAs(qs[m], rows[m])
    ensures |ImportRows(rows, ids, draws, |qs|)| == |qs|
    ensures Reimported(ImportRows(rows, ids, draws, |qs|)[k], qs[k])
  {
    ReadBackComplete(qs, rows);
    ImportRowsAt(rows, ids, draws, |qs|, k);
    FieldsRoundTrip(qs[k], rows[k], ids[k], draws[k]);
  }

  /** Lines that read back as exportable questions import as those
      questions, one for one and in order. */
  lemma ImportReadBack(qs: seq<Question>, rows: seq<RowFields>, ids: seq<string>, draws: seq<seq<int>>)
    requires |rows| == |qs| && ValidDraws(|qs|, ids, draws)
    requires forall k :: 0 <= k < |qs| ==> Exportable(qs[k]) && ReadsBackAs(qs[k], rows[k])
    ensures var r := ImportRows(rows, ids, draws, |qs|);
            |r| == |qs| && forall k :: 0 <= k < |qs| ==> Reimported(r[k], qs[k])
  {
    ReadBackComplete(qs, rows);
    ImportRowsLength(rows, ids, draws, |qs|);
    forall k | 0 <= k < |qs|
      ensures Reimported(ImportRows(rows, ids, draws, |qs|)[k], qs[k])
    {
      ImportReadBackAt(qs, rows, ids, draws, k);
    }
  }

  /** Exporting a quiz of exportable questions and importing the file gives
      one question per question, in order, each with the same text, the same
      options in some order and the same correct answer. */
  lemma ExportThenImport(qs: seq<Question>, ids: seq<string>, draws: seq<seq<int>>)
    requires |qs| > 0 && forall i :: 0 <= i < |qs| ==> Exportable(qs[i])
    requires ValidDraws(|qs|, ids, draws)
    ensures var r := ImportTable(DownloadTsv(qs).value, ids, draws);
            && r.Imported? && |r.questions| == |qs|
            && forall i :: 0 <= i < |qs| ==> Reimported(r.questions[i], qs[i])
  {
    var t := DownloadTsv(qs).value;
    ExportHasColumns(qs);
    ExportReadsBack(qs);
    ImportReadBack(qs, TableFields(t), ids, draws);
  }
}
