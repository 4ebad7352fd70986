/** The answer-key sanitizer (src/lib/game/security.ts): the projections
    that remove `correctAnswers` from a question and from every question of
    a game before either is sent to a player. */
module Security {

  import opened Optional
  import opened QuizTypes

  /** `Omit<Question, 'correctAnswers'>`. */
  datatype SanitizedQuestion = SanitizedQuestion(
    id: string,
    text: string,
    options: seq<string>,
    timeLimit: int,
    explanation: Option<string>,
    image: Option<string>,
    qtype: Option<QuestionType>)

  type SanitizedGame = GameOf<SanitizedQuestion>

  /** `sanitizeQuestion`: every field of the question except the key, with
      its value unchanged. */
  function SanitizeQuestion(q: Question): (r: SanitizedQuestion)
    ensures r.id == q.id && r.text == q.text && r.options == q.options
    ensures r.timeLimit == q.timeLimit && r.explanation == q.explanation
    ensures r.image == q.image && r.qtype == q.qtype
  {
    SanitizedQuestion(q.id, q.text, q.options, q.timeLimit, q.explanation, q.image, q.qtype)
  }

  /** Puts a key back on a sanitized question. */
  function WithKey(s: SanitizedQuestion, key: seq<int>): Question {
    Question(s.id, s.text, s.options, key, s.timeLimit, s.explanation, s.image, s.qtype)
  }

  /** Nothing but the key is lost: the original question is the sanitized
      one with its own key put back. */
  lemma SanitizeLosesOnlyKey(q: Question)
    ensures WithKey(SanitizeQuestion(q), q.correctAnswers) == q
  {
  }

  /** Non-interference over the fields of the question record: two
      questions that differ only in `correctAnswers` sanitize to the same
      value. A property outside the record is passed on unchanged and is not
      covered. */
  lemma SanitizeQuestionIgnoresKey(q1: Question, q2: Question)
    requires q1.(correctAnswers := q2.correctAnswers) == q2
    ensures SanitizeQuestion(q1) == SanitizeQuestion(q2)
  {
  }

  function SanitizeAll(qs: seq<Question>): (r: seq<SanitizedQuestion>)
    ensures |r| == |qs| && forall i :: 0 <= i < |qs| ==> r[i] == SanitizeQuestion(qs[i])
  {
    seq(|qs|, i requires 0 <= i < |qs| => SanitizeQuestion(qs[i]))
  }

  /** `sanitizeGame`: the game with every question sanitized, in order, and
      every other field unchanged. The key is stripped whatever the phase and
      the current question are. */
  function SanitizeGame(g: Game): (r: SanitizedGame)
    ensures r.id == g.id && r.pin == g.pin && r.hostId == g.hostId && r.title == g.title
    ensures r.settings == g.settings && r.currentQuestionIndex == g.currentQuestionIndex
    ensures r.status == g.status && r.phase == g.phase && r.players == g.players
    ensures r.questionStartTime == g.questionStartTime && r.phaseStartTime == g.phaseStartTime
    ensures r.phaseEndTime == g.phaseEndTime && r.gameLoopActive == g.gameLoopActive
    ensures r.answerHistory == g.answerHistory
    ensures |r.questions| == |g.questions|
    ensures forall i :: 0 <= i < |g.questions| ==> r.questions[i] == SanitizeQuestion(g.questions[i])
  {
    GameOf(g.id, g.pin, g.hostId, g.title, SanitizeAll(g.questions), g.settings,
           g.currentQuestionIndex, g.status, g.phase, g.players, g.questionStartTime,
           g.phaseStartTime, g.phaseEndTime, g.gameLoopActive, g.answerHistory)
  }

  /** Two games that agree everywhere except, possibly, on their questions'
      keys. */
  predicate SameButKeys(g1: Game, g2: Game) {
    && g1.(questions := []) == g2.(questions := [])
    && |g1.questions| == |g2.questions|
    && forall i :: 0 <= i < |g1.questions| ==>
         g1.questions[i].(correctAnswers := g2.questions[i].correctAnswers) == g2.questions[i]
  }

  /** Non-interference for whole games: the sanitized game does not depend on
      any question's key. */
  lemma SanitizeGameIgnoresKeys(g1: Game, g2: Game)
    requires SameButKeys(g1, g2)
    ensures SanitizeGame(g1) == SanitizeGame(g2)
  {
    var s1, s2 := SanitizeAll(g1.questions), SanitizeAll(g2.questions);
    forall i | 0 <= i < |s1|
      ensures s1[i] == s2[i]
    {
      SanitizeQuestionIgnoresKey(g1.questions[i], g2.questions[i]);
    }
    assert s1 == s2;
  }

  /** The stripped questions are the same in every phase and at every
      question index: nothing is revealed as the game advances. */
  lemma SanitizeIgnoresProgress(g: Game, status: GamePhase, phase: GamePhase, index: int)
    ensures SanitizeGame(g.(status := status, phase := phase, currentQuestionIndex := index)).questions
            == SanitizeGame(g).questions
  {
  }

  /** The game restored from its sanitized form and its questions' keys. */
  function RestoreGame(s: SanitizedGame, keys: seq<seq<int>>): Game
    requires |keys| == |s.questions|
  {
    GameOf(s.id, s.pin, s.hostId, s.title,
           seq(|s.questions|, i requires 0 <= i < |s.questions| => WithKey(s.questions[i], keys[i])),
           s.settings, s.currentQuestionIndex, s.status, s.phase, s.players, s.questionStartTime,
           s.phaseStartTime, s.phaseEndTime, s.gameLoopActive, s.answerHistory)
  }

  function Keys(g: Game): (r: seq<seq<int>>)
    ensures |r| == |g.questions|
  {
    seq(|g.questions|, i requires 0 <= i < |g.questions| => g.questions[i].correctAnswers)
  }

  /** Sanitizing a game loses the keys and nothing else. */
  lemma SanitizeGameLosesOnlyKeys(g: Game)
    ensures RestoreGame(SanitizeGame(g), Keys(g)) == g
  {
    var r := RestoreGame(SanitizeGame(g), Keys(g));
    assert r.questions == g.questions;
  }
}
