/** Entity model of the quiz: questions, settings, players, answer records and
    the game record that carries them (src/types/game.ts). */
module QuizTypes {

  import opened Optional

  datatype QuestionType = Single | Multiple | Boolean

  /** A quiz question. `qtype` is optional in the source; an absent type is
      read as `Multiple` by every authoring operation. */
  datatype Question = Question(
    id: string,
    text: string,
    options: seq<string>,
    correctAnswers: seq<int>,
    timeLimit: int,
    explanation: Option<string>,
    image: Option<string>,
    qtype: Option<QuestionType>)

  /** The type an authoring operation works with: `question.type || 'multiple'`. */
  function TypeOf(q: Question): QuestionType {
    match q.qtype
    case None => Multiple
    case Some(t) => t
  }

  /** Every correct index of `q` names one of its options. */
  predicate KeyInRange(q: Question) {
    forall k :: 0 <= k < |q.correctAnswers| ==> 0 <= q.correctAnswers[k] < |q.options|
  }

  datatype GameSettings = GameSettings(thinkTime: int, answerTime: int)

  datatype GamePhase = Waiting | Preparation | Thinking | Answering | Results | Leaderboard | Finished

  datatype Player = Player(
    id: string,
    socketId: string,
    name: string,
    score: int,
    isHost: bool,
    currentAnswer: Option<seq<int>>,
    answerTime: Option<int>,
    isConnected: bool,
    hasDyslexiaSupport: Option<bool>)

  datatype AnswerRecord = AnswerRecord(
    playerId: string,
    playerName: string,
    questionIndex: int,
    questionId: string,
    answerIndices: Option<seq<int>>,
    answerTime: Option<int>,
    responseTime: int,
    pointsEarned: int,
    wasCorrect: bool,
    hasDyslexiaSupport: bool)

  /** A game whose questions have type `Q`: with `Q := Question` it is the
      server's `Game`, with the sanitized question type it is `SanitizedGame`. */
  datatype GameOf<Q> = GameOf(
    id: string,
    pin: string,
    hostId: string,
    title: string,
    questions: seq<Q>,
    settings: GameSettings,
    currentQuestionIndex: int,
    status: GamePhase,
    phase: GamePhase,
    players: seq<Player>,
    questionStartTime: Option<int>,
    phaseStartTime: Option<int>,
    phaseEndTime: Option<int>,
    gameLoopActive: Option<bool>,
    answerHistory: seq<AnswerRecord>)

  type Game = GameOf<Question>
}
