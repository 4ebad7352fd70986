/** The quiz editor of the host page (src/app/host/page.tsx): operations on
    the list of questions being authored and on one question's options and
    answer key. Each list operation of the source works on a copy of the
    list, so here each one returns the new list. */
module Authoring {

  import opened Optional
  import opened QuizTypes
  import opened JsText
  import opened SeqOps

  const TrueLabel := "Verdadeiro"
  const FalseLabel := "Falso"
  const DefaultTimeLimit := 30

  // ---------------------------------------------------------------------
  // The question list: templates, insertion, removal, reordering
  // ---------------------------------------------------------------------

  /** `buildQuestionTemplate`: a blank question of the chosen type whose key
      is its first option. */
  function Template(t: QuestionType, id: string): (q: Question)
    ensures q.id == id && q.text == "" && q.timeLimit == DefaultTimeLimit && q.qtype == Some(t)
    ensures q.explanation == None && q.image == None
    ensures t == Boolean ==> q.options == [TrueLabel, FalseLabel]
    ensures t == Single ==> q.options == ["", "", ""]
    ensures t == Multiple ==> q.options == ["", "", "", ""]
    ensures q.correctAnswers == [0] && KeyInRange(q)
  {
    if t == Boolean then
      Question(id, "", [TrueLabel, FalseLabel], [0], DefaultTimeLimit, None, None, Some(t))
    else
      var optionCount := if t == Single then 3 else 4;
      Question(id, "", Blanks(optionCount), [0], DefaultTimeLimit, None, None, Some(t))
  }

  /** `insertQuestionAtIndex`: the index is clamped into `[0, |qs|]` and the
      template is spliced in there; every other question keeps its order. */
  function InsertQuestionAtIndex(qs: seq<Question>, t: QuestionType, index: int, id: string): (r: seq<Question>)
    ensures |r| == |qs| + 1
    ensures var k := Clamp(index, 0, |qs|);
            r[k] == Template(t, id)
            && (forall i :: 0 <= i < k ==> r[i] == qs[i])
            && (forall i :: k < i < |r| ==> r[i] == qs[i - 1])
  {
    InsertAt(qs, Clamp(index, 0, |qs|), Template(t, id))
  }

  /** `removeQuestion`: drops exactly the question at `index` (nothing when
      there is none) and keeps the order of the rest. */
  function RemoveQuestion(qs: seq<Question>, index: int): (r: seq<Question>)
    ensures 0 <= index < |qs| ==> r == qs[..index] + qs[index + 1..]
    ensures 0 <= index < |qs| ==> multiset(r) + multiset{qs[index]} == multiset(qs)
    ensures !(0 <= index < |qs|) ==> r == qs
  {
    if 0 <= index < |qs| then
      WithoutIndexMultiset(qs, index);
      WithoutIndex(qs, index)
    else WithoutIndex(qs, index)
  }

  /** Removing the question just inserted gives back the original list. */
  lemma RemoveUndoesInsert(qs: seq<Question>, t: QuestionType, index: int, id: string)
    ensures RemoveQuestion(InsertQuestionAtIndex(qs, t, index, id), Clamp(index, 0, |qs|)) == qs
  {
    WithoutInserted(qs, Clamp(index, 0, |qs|), Template(t, id));
  }

  datatype Direction = Up | Down

  function MoveTarget(index: int, direction: Direction): int {
    if direction == Up then index - 1 else index + 1
  }

  /** `moveQuestion`: swaps the question with its neighbour above or below,
      and leaves the list as it is when there is no such neighbour. */
  function MoveQuestion(qs: seq<Question>, index: int, direction: Direction): (r: seq<Question>)
    requires 0 <= index < |qs|
    ensures |r| == |qs| && multiset(r) == multiset(qs)
    ensures var t := MoveTarget(index, direction);
            if 0 <= t < |qs| then
              r[index] == qs[t] && r[t] == qs[index]
              && forall i :: 0 <= i < |qs| && i != index && i != t ==> r[i] == qs[i]
            else r == qs
  {
    var target := MoveTarget(index, direction);
    if target < 0 || target >= |qs| then qs
    else
      SwapPermutes(qs, index, target);
      Swap(qs, index, target)
  }

  /** The body of `moveQuestion`: the list is copied into a fresh array and
      the two questions are swapped there; without a neighbour in that
      direction the list is left as it was. */
  method MoveQuestionOnCopy(qs: seq<Question>, index: int, direction: Direction) returns (r: seq<Question>)
    requires 0 <= index < |qs|
    ensures r == MoveQuestion(qs, index, direction)
  {
    var newQuestions := new Question[|qs|](i requires 0 <= i < |qs| => qs[i]);
    var targetIndex := if direction == Up then index - 1 else index + 1;
    if targetIndex < 0 || targetIndex >= newQuestions.Length {
      return qs;
    }
    newQuestions[index], newQuestions[targetIndex] := newQuestions[targetIndex], newQuestions[index];
    r := newQuestions[..];
  }

  /** Moving a question up and then moving it back down restores the list. */
  lemma MoveUpThenDown(qs: seq<Question>, index: int)
    requires 0 < index < |qs|
    ensures MoveQuestion(MoveQuestion(qs, index, Up), index - 1, Down) == qs
  {
    var once := MoveQuestion(qs, index, Up);
    var twice := MoveQuestion(once, index - 1, Down);
    assert forall i :: 0 <= i < |qs| ==> twice[i] == qs[i];
  }

  /** `updateOption`: sets one option's text; the answer key is untouched. */
  function UpdateOption(qs: seq<Question>, questionIndex: int, optionIndex: int, value: string): (r: seq<Question>)
    requires 0 <= questionIndex < |qs|
    requires 0 <= optionIndex < |qs[questionIndex].options|
    ensures |r| == |qs|
    ensures forall i :: 0 <= i < |qs| && i != questionIndex ==> r[i] == qs[i]
    ensures var q, q' := qs[questionIndex], r[questionIndex];
            |q'.options| == |q.options| && q'.options[optionIndex] == value
            && (forall i :: 0 <= i < |q.options| && i != optionIndex ==> q'.options[i] == q.options[i])
            && q' == q.(options := q'.options)
    ensures KeyInRange(qs[questionIndex]) ==> KeyInRange(r[questionIndex])
  {
    var q := qs[questionIndex];
    qs[questionIndex := q.(options := q.options[optionIndex := value])]
  }

  // ---------------------------------------------------------------------
  // Changing a question's type
  // ---------------------------------------------------------------------

  /** `question.correctAnswers[0] || 0`. */
  function FirstCorrect(q: Question): int {
    if |q.correctAnswers| == 0 then 0 else q.correctAnswers[0]
  }

  function Min(a: int, b: int): int {
    if a < b then a else b
  }

  /** `question.options[i] || fallback`. */
  function OptionOr(options: seq<string>, i: nat, fallback: string): string {
    if i < |options| then OrElse(options[i], fallback) else fallback
  }

  /** `options[i] && options[i] !== label ? options[i] : ''`: a default
      true/false label is not carried over to a question with blank options. */
  function KeepUnlessLabel(options: seq<string>, i: nat, defaultLabel: string): string {
    if i < |options| && options[i] != "" && options[i] != defaultLabel then options[i] else ""
  }

  /** The options a non-boolean target type starts from. */
  function OptionsToPad(q: Question): seq<string> {
    if TypeOf(q) == Boolean then
      [KeepUnlessLabel(q.options, 0, TrueLabel), KeepUnlessLabel(q.options, 1, FalseLabel), "", ""]
    else q.options
  }

  /** The options after padding to 3 and, for `Multiple`, to exactly 4. */
  function PaddedOptions(q: Question, t: QuestionType): seq<string> {
    var atLeastThree := PadTo(OptionsToPad(q), 3);
    if t == Multiple then PadTo(atLeastThree, 4)[..4] else atLeastThree
  }

  /** What `changeQuestionType` makes of one question. */
  function Retyped(q: Question, t: QuestionType): (r: Question)
    // the fields other than the type, the options and the key never change
    ensures r.id == q.id && r.text == q.text && r.timeLimit == q.timeLimit
    ensures r.explanation == q.explanation && r.image == q.image
    ensures r.qtype == Some(t)
    // same type (missing counts as Multiple): the question as it was
    ensures TypeOf(q) == t ==> r == q.(qtype := Some(t))
    // a new type: exactly one correct index, in range unless the old first one was negative
    ensures TypeOf(q) != t ==> |r.correctAnswers| == 1
    ensures TypeOf(q) != t && 0 <= FirstCorrect(q) ==> KeyInRange(r)
    // to boolean: two options, blanks replaced by the labels, key clamped to 1
    ensures TypeOf(q) != t && t == Boolean ==>
              r.options == [OptionOr(q.options, 0, TrueLabel), OptionOr(q.options, 1, FalseLabel)]
              && r.correctAnswers == [Min(FirstCorrect(q), 1)]
    // to a non-boolean type: the first key clamped to the last option
    ensures TypeOf(q) != t && t != Boolean ==>
              r.correctAnswers == [Min(FirstCorrect(q), |r.options| - 1)]
    ensures TypeOf(q) != t && t == Multiple ==> |r.options| == 4
    ensures TypeOf(q) != t && t == Single ==> |r.options| >= 3
    // from a non-boolean type the old options are kept verbatim as a prefix
    ensures TypeOf(q) != t && t != Boolean && TypeOf(q) != Boolean ==>
              (forall i :: 0 <= i < |q.options| && i < |r.options| ==> r.options[i] == q.options[i])
              && (forall i :: |q.options| <= i < |r.options| ==> r.options[i] == "")
    ensures TypeOf(q) != t && t == Single && TypeOf(q) != Boolean ==>
              |r.options| == (if |q.options| < 3 then 3 else |q.options|)
    // from boolean: the non-default labels, then two blanks
    ensures TypeOf(q) != t && TypeOf(q) == Boolean ==>
              r.options == [KeepUnlessLabel(q.options, 0, TrueLabel), KeepUnlessLabel(q.options, 1, FalseLabel), "", ""]
  {
    if TypeOf(q) == t then q.(qtype := Some(t))
    else if t == Boolean then
      q.(qtype := Some(t),
         options := [OptionOr(q.options, 0, TrueLabel), OptionOr(q.options, 1, FalseLabel)],
         correctAnswers := [Min(FirstCorrect(q), 1)])
    else
      var options := PaddedOptions(q, t);
      q.(qtype := Some(t), options := options, correctAnswers := [Min(FirstCorrect(q), |options| - 1)])
  }

  /** The body of the `changeQuestionType` callback for the question being
      changed, with its two padding loops. */
  method RetypeQuestion(q: Question, t: QuestionType) returns (r: Question)
    ensures r == Retyped(q, t)
  {
    var currentType := TypeOf(q);
    if currentType == t {
      return q.(qtype := Some(t));
    }
    if t == Boolean {
      var trueOption := OptionOr(q.options, 0, TrueLabel);
      var falseOption := OptionOr(q.options, 1, FalseLabel);
      return q.(qtype := Some(t), options := [trueOption, falseOption],
                correctAnswers := [Min(FirstCorrect(q), 1)]);
    }
    var newOptions := q.options;
    if currentType == Boolean {
      newOptions := [KeepUnlessLabel(q.options, 0, TrueLabel), KeepUnlessLabel(q.options, 1, FalseLabel), "", ""];
    }
    ghost var start := newOptions;
    while |newOptions| < 3
      invariant |start| <= |newOptions| <= if |start| < 3 then 3 else |start|
      invariant newOptions == start + Blanks(|newOptions| - |start|)
    {
      newOptions := newOptions + [""];
    }
    assert newOptions == PadTo(start, 3);
    if t == Multiple {
      ghost var three := newOptions;
      while |newOptions| < 4
        invariant |three| <= |newOptions| <= if |three| < 4 then 4 else |three|
        invariant newOptions == three + Blanks(|newOptions| - |three|)
      {
        newOptions := newOptions + [""];
      }
      assert newOptions == PadTo(three, 4);
      newOptions := newOptions[..4];
    } else {
      var keep := if 3 < |newOptions| then |newOptions| else 3;
      newOptions := newOptions[..keep];
    }
    var correctedAnswerIndex := Min(FirstCorrect(q), |newOptions| - 1);
    r := q.(qtype := Some(t), options := newOptions, correctAnswers := [correctedAnswerIndex]);
  }

  /** `changeQuestionType`: retypes the question at `questionIndex` and no
      other. */
  method ChangeQuestionType(qs: seq<Question>, questionIndex: int, t: QuestionType) returns (r: seq<Question>)
    ensures |r| == |qs|
    ensures forall i :: 0 <= i < |qs| && i != questionIndex ==> r[i] == qs[i]
    ensures 0 <= questionIndex < |qs| ==> r[questionIndex] == Retyped(qs[questionIndex], t)
  {
    r := qs;
    if 0 <= questionIndex < |qs| {
      var changed := RetypeQuestion(qs[questionIndex], t);
      r := qs[questionIndex := changed];
    }
  }

  /** Changing to a type a second time changes nothing more. */
  lemma RetypedIdempotent(q: Question, t: QuestionType)
    ensures Retyped(Retyped(q, t), t) == Retyped(q, t)
  {
  }

  // ---------------------------------------------------------------------
  // Growing, shrinking and removing options
  // ---------------------------------------------------------------------

  /** The length `options.slice(0, end)` keeps: a negative end counts from
      the back. */
  function SliceEnd(len: nat, end: int): (r: nat)
    ensures r <= len
    ensures 0 <= end <= len ==> r == end
    ensures end < 0 ==> r == if len + end < 0 then 0 else len + end
  {
    if end < 0 then (if len + end < 0 then 0 else len + end)
    else if end > len then len
    else end
  }

  /** `correctAnswers.map(idx => idx >= n ? -1 : idx).filter(idx => idx !== -1)`:
      the indices below `n`, in order (an index that was already -1 goes too). */
  function KeepBelow(ca: seq<int>, n: int): (r: seq<int>)
    ensures |r| <= |ca|
    ensures forall k :: 0 <= k < |r| ==> r[k] < n && r[k] != -1 && r[k] in ca
    ensures forall k :: 0 <= k < |ca| && ca[k] < n && ca[k] != -1 ==> ca[k] in r
  {
    if |ca| == 0 then []
    else (if ca[0] < n && ca[0] != -1 then [ca[0]] else []) + KeepBelow(ca[1..], n)
  }

  /** `KeepBelow` keeps the key's order: its result is a subsequence of the key. */
  lemma {:induction false} KeepBelowInOrder(ca: seq<int>, n: int)
    ensures IsSubsequence(KeepBelow(ca, n), ca)
  {
    if |ca| > 0 {
      var rest := KeepBelow(ca[1..], n);
      KeepBelowInOrder(ca[1..], n);
      if ca[0] < n && ca[0] != -1 {
        assert KeepBelow(ca, n) == [ca[0]] + rest;
        SubsequenceKeep(ca[0], rest, ca[1..]);
      } else {
        assert KeepBelow(ca, n) == rest;
        SubsequenceSkip(ca[0], rest, ca[1..]);
      }
      assert ca == [ca[0]] + ca[1..];
    }
  }

  /** `KeepBelow` keeps every entry below `n` (and not -1) exactly as often as
      the key holds it, and nothing else. */
  lemma {:induction false} KeepBelowCounts(ca: seq<int>, n: int)
    ensures forall x :: multiset(KeepBelow(ca, n))[x] == if x < n && x != -1 then multiset(ca)[x] else 0
  {
    if |ca| > 0 {
      KeepBelowCounts(ca[1..], n);
      assert ca == [ca[0]] + ca[1..];
      if ca[0] < n && ca[0] != -1 {
        assert KeepBelow(ca, n) == [ca[0]] + KeepBelow(ca[1..], n);
      } else {
        assert KeepBelow(ca, n) == KeepBelow(ca[1..], n);
      }
    }
  }

  /** The options `setOptionCount` produces for a non-boolean question whose
      count changes: blanks appended when growing, a prefix when shrinking. */
  function ResizedOptions(options: seq<string>, count: int): (r: seq<string>)
    ensures count > |options| ==>
              |r| == count && r[..|options|] == options
              && forall i :: |options| <= i < count ==> r[i] == ""
    ensures count <= |options| ==> r == options[..SliceEnd(|options|, count)]
    ensures 0 <= count ==> |r| == count
  {
    if count > |options| then options + Blanks(count - |options|)
    else options[..SliceEnd(|options|, count)]
  }

  /** The key `setOptionCount` produces once the options have length `n`:
      the indices below `n`, or `[0]` when none survive and there is an
      option to point at. */
  function ResizedKey(ca: seq<int>, n: nat): (r: seq<int>)
    ensures forall k :: 0 <= k < |ca| && 0 <= ca[k] < n ==> ca[k] in r
    ensures forall k :: 0 <= k < |r| ==> r[k] < n
    ensures var kept := KeepBelow(ca, n);
            if |kept| == 0 && n > 0 then r == [0] else r == kept
    ensures (forall k :: 0 <= k < |ca| ==> 0 <= ca[k]) ==> forall k :: 0 <= k < |r| ==> 0 <= r[k]
  {
    var corrected := KeepBelow(ca, n);
    if |corrected| == 0 && n > 0 then [0] else corrected
  }

  /** What `setOptionCount` makes of one question. */
  function WithOptionCount(q: Question, count: int): (r: Question)
    ensures r.id == q.id && r.text == q.text && r.timeLimit == q.timeLimit
    ensures r.explanation == q.explanation && r.image == q.image
    // boolean questions and an unchanged count are left as they are
    ensures TypeOf(q) == Boolean || count == |q.options| ==> r == q
    // otherwise the type is made explicit and options and key are resized
    ensures TypeOf(q) != Boolean && count != |q.options| ==>
              r.qtype == Some(TypeOf(q))
              && r.options == ResizedOptions(q.options, count)
              && r.correctAnswers == ResizedKey(q.correctAnswers, |r.options|)
    ensures KeyInRange(q) ==> KeyInRange(r)
  {
    if TypeOf(q) == Boolean then q.(qtype := Some(Boolean))
    else if count == |q.options| then q
    else
      var newOptions := ResizedOptions(q.options, count);
      q.(qtype := Some(TypeOf(q)), options := newOptions,
         correctAnswers := ResizedKey(q.correctAnswers, |newOptions|))
  }

  /** `setOptionCount`: changes the option count of the question at
      `questionIndex` and no other. */
  function SetOptionCount(qs: seq<Question>, questionIndex: int, count: int): (r: seq<Question>)
    ensures |r| == |qs|
    ensures forall i :: 0 <= i < |qs| && i != questionIndex ==> r[i] == qs[i]
    ensures 0 <= questionIndex < |qs| ==> r[questionIndex] == WithOptionCount(qs[questionIndex], count)
  {
    if 0 <= questionIndex < |qs| then qs[questionIndex := WithOptionCount(qs[questionIndex], count)] else qs
  }

  /** Where an option index lands once the option at `removed` is gone. */
  function Shifted(idx: int, removed: int): int {
    if idx > removed then idx - 1 else idx
  }

  /** `correctAnswers.filter(idx => idx !== removed).map(idx => idx > removed ? idx - 1 : idx)`. */
  function RemapAfterRemoval(ca: seq<int>, removed: int): (r: seq<int>)
    ensures |r| <= |ca|
    ensures forall k :: 0 <= k < |ca| && ca[k] != removed ==> Shifted(ca[k], removed) in r
    ensures forall k :: 0 <= k < |r| ==> exists j :: 0 <= j < |ca| && ca[j] != removed && r[k] == Shifted(ca[j], removed)
    ensures r == [] <==> forall k :: 0 <= k < |ca| ==> ca[k] == removed
  {
    if |ca| == 0 then []
    else
      var rest := RemapAfterRemoval(ca[1..], removed);
      var r := (if ca[0] != removed then [Shifted(ca[0], removed)] else []) + rest;
      assert forall k :: 1 <= k < |ca| ==> ca[k] == ca[1..][k - 1];
      r
  }

  /** What `removeOption` makes of one question. */
  function WithoutOption(q: Question, optionIndex: int): (r: Question)
    ensures r.id == q.id && r.text == q.text && r.timeLimit == q.timeLimit
    ensures r.explanation == q.explanation && r.image == q.image
    // a no-op for boolean questions and for those with at most two options
    ensures TypeOf(q) == Boolean ==> r == q
    ensures TypeOf(q) != Boolean && |q.options| <= 2 ==> r == q.(qtype := Some(TypeOf(q)))
    // otherwise exactly the option at optionIndex goes
    ensures TypeOf(q) != Boolean && |q.options| > 2 ==>
              r.qtype == Some(TypeOf(q))
              && (0 <= optionIndex < |q.options| ==> r.options == q.options[..optionIndex] + q.options[optionIndex + 1..])
              && (!(0 <= optionIndex < |q.options|) ==> r.options == q.options)
    // removing the only correct option makes the first option correct
    ensures TypeOf(q) != Boolean && |q.options| > 2 ==>
              if forall k :: 0 <= k < |q.correctAnswers| ==> q.correctAnswers[k] == optionIndex
              then r.correctAnswers == [0]
              else r.correctAnswers == RemapAfterRemoval(q.correctAnswers, optionIndex)
  {
    var questionType := TypeOf(q);
    if questionType == Boolean then q.(qtype := Some(questionType))
    else if |q.options| <= 2 then q.(qtype := Some(questionType))
    else
      var newOptions := WithoutIndex(q.options, optionIndex);
      var remapped := RemapAfterRemoval(q.correctAnswers, optionIndex);
      var key := if |remapped| == 0 && |newOptions| > 0 then [0] else remapped;
      q.(qtype := Some(questionType), options := newOptions, correctAnswers := key)
  }

  /** After the option at `removed` is taken out of `options`, the option at
      the shifted position of any other index is the same text. */
  lemma ShiftedNamesSameText(options: seq<string>, removed: int, idx: int)
    requires 0 <= removed < |options| && 0 <= idx < |options| && idx != removed
    ensures var rest := options[..removed] + options[removed + 1..];
            0 <= Shifted(idx, removed) < |rest| && rest[Shifted(idx, removed)] == options[idx]
  {
  }

  /** When an option is really removed, the list shrinks by one and every
      surviving correct index names the same option text as before. */
  lemma WithoutOptionKeepsText(q: Question, optionIndex: int)
    requires TypeOf(q) != Boolean && |q.options| > 2 && 0 <= optionIndex < |q.options|
    ensures var r := WithoutOption(q, optionIndex);
            && |r.options| == |q.options| - 1
            && forall k :: 0 <= k < |q.correctAnswers| && 0 <= q.correctAnswers[k] < |q.options|
                           && q.correctAnswers[k] != optionIndex ==>
                 var n := Shifted(q.correctAnswers[k], optionIndex);
                 n in r.correctAnswers && 0 <= n < |r.options| && r.options[n] == q.options[q.correctAnswers[k]]
  {
    var r := WithoutOption(q, optionIndex);
    forall k | 0 <= k < |q.correctAnswers| && 0 <= q.correctAnswers[k] < |q.options|
               && q.correctAnswers[k] != optionIndex
      ensures Shifted(q.correctAnswers[k], optionIndex) in r.correctAnswers
      ensures 0 <= Shifted(q.correctAnswers[k], optionIndex) < |r.options|
      ensures r.options[Shifted(q.correctAnswers[k], optionIndex)] == q.options[q.correctAnswers[k]]
    {
      ShiftedNamesSameText(q.options, optionIndex, q.correctAnswers[k]);
    }
  }

  /** The remapped indices of a key inside `n` options stay inside the
      options left once position `removed` is gone. */
  lemma RemapStaysInRange(ca: seq<int>, removed: int, n: int)
    requires 0 <= removed && forall k :: 0 <= k < |ca| ==> 0 <= ca[k] < n
    ensures var r := RemapAfterRemoval(ca, removed);
            forall k :: 0 <= k < |r| ==> 0 <= r[k] < (if removed < n then n - 1 else n)
  {
    var r := RemapAfterRemoval(ca, removed);
    forall k | 0 <= k < |r|
      ensures 0 <= r[k] < (if removed < n then n - 1 else n)
    {
      var j :| 0 <= j < |ca| && ca[j] != removed && r[k] == Shifted(ca[j], removed);
      assert 0 <= ca[j] < n;
    }
  }

  /** Removing an option at a non-negative position keeps every correct
      index inside the options. */
  lemma WithoutOptionKeyInRange(q: Question, optionIndex: int)
    requires KeyInRange(q) && 0 <= optionIndex
    ensures KeyInRange(WithoutOption(q, optionIndex))
  {
    if TypeOf(q) != Boolean && |q.options| > 2 {
      RemapStaysInRange(q.correctAnswers, optionIndex, |q.options|);
    }
  }

  /** `removeOption`: removes an option from the question at `questionIndex`
      and no other. */
  function RemoveOption(qs: seq<Question>, questionIndex: int, optionIndex: int): (r: seq<Question>)
    ensures |r| == |qs|
    ensures forall i :: 0 <= i < |qs| && i != questionIndex ==> r[i] == qs[i]
    ensures 0 <= questionIndex < |qs| ==> r[questionIndex] == WithoutOption(qs[questionIndex], optionIndex)
  {
    if 0 <= questionIndex < |qs| then qs[questionIndex := WithoutOption(qs[questionIndex], optionIndex)] else qs
  }
}
