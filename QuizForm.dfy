/** The creation gate of the quiz editor
    (src/components/host-setup/HostQuizCreationScreen.tsx): the form is
    valid when no question has an empty text or an empty option. */
module QuizForm {

  import opened Optional
  import opened QuizTypes
  import opened JsText
  import opened SubmitCleanup
  import Authoring

  /** `!q.question || q.options.some(o => !o)`: the text is empty or some
      option is. */
  predicate IsIncomplete(q: Question)
    ensures IsIncomplete(q) <==> q.text == "" || "" in q.options
  {
    q.text == "" || exists j :: 0 <= j < |q.options| && q.options[j] == ""
  }

  /** `isFormValid = !questions.some(q => IsIncomplete(q))`. */
  predicate IsFormValid(qs: seq<Question>)
    ensures IsFormValid(qs) <==> forall q :: q in qs ==> q.text != "" && "" !in q.options
  {
    !exists i :: 0 <= i < |qs| && IsIncomplete(qs[i])
  }

  /** The form is valid exactly when every question has a text and every
      option of every question is non-empty. */
  lemma FormValidIff(qs: seq<Question>)
    ensures IsFormValid(qs) <==>
              forall i :: 0 <= i < |qs| ==>
                qs[i].text != "" && forall j :: 0 <= j < |qs[i].options| ==> qs[i].options[j] != ""
  {
  }

  /** One incomplete question makes the whole form invalid. */
  lemma OneBadQuestionInvalidates(qs: seq<Question>, i: int)
    requires 0 <= i < |qs| && IsIncomplete(qs[i])
    ensures !IsFormValid(qs)
  {
  }

  /** Validity does not depend on the order of the questions. */
  lemma ValidityIgnoresOrder(qs1: seq<Question>, qs2: seq<Question>)
    requires multiset(qs1) == multiset(qs2)
    ensures IsFormValid(qs1) == IsFormValid(qs2)
  {
    if !IsFormValid(qs1) {
      var i :| 0 <= i < |qs1| && IsIncomplete(qs1[i]);
      assert qs1[i] in multiset(qs2);
      var k :| 0 <= k < |qs2| && qs2[k] == qs1[i];
    }
    if !IsFormValid(qs2) {
      var i :| 0 <= i < |qs2| && IsIncomplete(qs2[i]);
      assert qs2[i] in multiset(qs1);
      var k :| 0 <= k < |qs1| && qs1[k] == qs2[i];
    }
  }

  /** In particular reordering questions in the editor keeps validity. */
  lemma MoveKeepsValidity(qs: seq<Question>, index: int, direction: Authoring.Direction)
    requires 0 <= index < |qs|
    ensures IsFormValid(Authoring.MoveQuestion(qs, index, direction)) == IsFormValid(qs)
  {
    ValidityIgnoresOrder(Authoring.MoveQuestion(qs, index, direction), qs);
  }

  /** A freshly inserted question has no text yet, so it blocks creation
      until it is filled in. */
  lemma InsertedTemplateBlocks(qs: seq<Question>, t: QuestionType, index: int, id: string)
    ensures !IsFormValid(Authoring.InsertQuestionAtIndex(qs, t, index, id))
  {
    var r := Authoring.InsertQuestionAtIndex(qs, t, index, id);
    var k := SeqOps.Clamp(index, 0, |qs|);
    assert IsIncomplete(r[k]);
  }

  /** The emptiness test is exact, not trimmed: on a valid form an option
      made only of whitespace is non-empty, yet `createGame` drops it. */
  lemma WhitespaceOptionPassesButIsDropped(qs: seq<Question>, i: int, j: int)
    requires IsFormValid(qs)
    requires 0 <= i < |qs| && 0 <= j < |qs[i].options| && IsBlank(qs[i].options[j])
    ensures qs[i].options[j] != ""
    ensures |CleanQuestion(qs[i]).options| < |qs[i].options|
  {
    KeptFromShorter(qs[i].options, 0, j);
  }

  /** The download/create row is rendered only when there is a question. */
  predicate ActionRowShown(qs: seq<Question>) {
    |qs| > 0
  }

  /** The create button can be pressed: it is rendered and not disabled. */
  predicate CreateEnabled(qs: seq<Question>) {
    ActionRowShown(qs) && IsFormValid(qs)
  }

  /** Pressing an enabled create button always sends the game, with one
      cleaned question per question of the editor. */
  lemma EnabledCreateSends(qs: seq<Question>, settings: GameSettings)
    requires CreateEnabled(qs)
    ensures CreateGame(qs, settings).Some?
    ensures |CreateGame(qs, settings).value.questions| == |qs|
  {
  }

  /** Counterexample to "a question that passes the gate keeps a correct
      answer": a question whose only correct option is a single space passes
      the form check, and the cleanup sends it with an empty key. */
  lemma SpaceKeyPassesGate()
    ensures var q := Question("q1", "Capital?", [" ", "Lisboa"], [0], 30, None, None, Some(Single));
            IsFormValid([q]) && CleanQuestion(q).options == ["Lisboa"] && CleanQuestion(q).correctAnswers == []
  {
    var q := Question("q1", "Capital?", [" ", "Lisboa"], [0], 30, None, None, Some(Single));
    assert IsBlank(q.options[0]);
    assert !IsWhitespace(q.options[1][0]);
    assert KeptIndices(q.options) == [1];
    assert SeqOps.IndexOf([1], 0) == -1;
  }
}
