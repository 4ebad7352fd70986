/** The cleanup `createGame` applies to every question before it is sent to
    the server (src/app/host/page.tsx): blank options are dropped and the
    answer key is remapped onto the options that remain. */
module SubmitCleanup {

  import opened Optional
  import opened QuizTypes
  import opened JsText
  import opened SeqOps

  /** The positions from `from` on whose option is not blank, ascending: the
      `oldIndex` column of `validOptionsWithIndices`. */
  function KeptFrom(options: seq<string>, from: nat): (r: seq<int>)
    requires from <= |options|
    ensures forall k :: 0 <= k < |r| ==> from <= r[k] < |options| && !IsBlank(options[r[k]])
    ensures forall i :: from <= i < |options| && !IsBlank(options[i]) ==> i in r
    ensures forall k, m :: 0 <= k < m < |r| ==> r[k] < r[m]
    decreases |options| - from
  {
    if from == |options| then []
    else (if IsBlank(options[from]) then [] else [from]) + KeptFrom(options, from + 1)
  }

  function KeptIndices(options: seq<string>): seq<int> {
    KeptFrom(options, 0)
  }

  /** The options at the positions `idx`, in that order. */
  function Pick(options: seq<string>, idx: seq<int>): (r: seq<string>)
    requires forall k :: 0 <= k < |idx| ==> 0 <= idx[k] < |options|
    ensures |r| == |idx| && forall k :: 0 <= k < |idx| ==> r[k] == options[idx[k]]
  {
    if |idx| == 0 then [] else [options[idx[0]]] + Pick(options, idx[1..])
  }

  /** `validOptionsWithIndices.map(item => item.text)`. */
  function CleanOptions(options: seq<string>): (r: seq<string>)
    ensures |r| == |KeptIndices(options)|
    ensures forall k :: 0 <= k < |r| ==> r[k] == options[KeptIndices(options)[k]] && !IsBlank(r[k])
  {
    Pick(options, KeptIndices(options))
  }

  /** Reference definition: the options that are not blank, in order. */
  function NonBlank(options: seq<string>): seq<string> {
    if |options| == 0 then []
    else (if IsBlank(options[0]) then [] else [options[0]]) + NonBlank(options[1..])
  }

  lemma {:induction false} KeptFromIsFilter(options: seq<string>, from: nat)
    requires from <= |options|
    ensures Pick(options, KeptFrom(options, from)) == NonBlank(options[from..])
    decreases |options| - from
  {
    if from < |options| {
      KeptFromIsFilter(options, from + 1);
      assert options[from..][1..] == options[from + 1..];
      var rest := KeptFrom(options, from + 1);
      if !IsBlank(options[from]) {
        assert ([from] + rest)[1..] == rest;
      }
    }
  }

  /** The options that survive are exactly the in-order subsequence of the
      options whose trimmed text is not empty. */
  lemma CleanOptionsIsFilter(options: seq<string>)
    ensures CleanOptions(options) == NonBlank(options)
  {
    KeptFromIsFilter(options, 0);
    assert options[0..] == options;
  }

  /** `q.correctAnswers.map(old => findIndex(oldIndex === old)).filter(i => i !== -1)`. */
  function RemapKey(ca: seq<int>, kept: seq<int>): (r: seq<int>)
    ensures |r| <= |ca|
    ensures forall k :: 0 <= k < |r| ==> 0 <= r[k] < |kept|
    ensures forall k :: 0 <= k < |r| ==> kept[r[k]] in ca
    ensures forall j :: 0 <= j < |ca| && ca[j] in kept ==> IndexOf(kept, ca[j]) in r
    ensures r == [] <==> forall j :: 0 <= j < |ca| ==> ca[j] !in kept
  {
    if |ca| == 0 then []
    else
      var n := IndexOf(kept, ca[0]);
      var head := if n == -1 then [] else [n];
      var rest := RemapKey(ca[1..], kept);
      assert ca == [ca[0]] + ca[1..];
      assert forall k :: 0 <= k < |head + rest| ==> (head + rest)[k] in head || (head + rest)[k] in rest;
      head + rest
  }

  /** What `createGame` sends for one question: only the options and the key
      change, and the key always lies inside the new options, whatever it was
      before. */
  function CleanQuestion(q: Question): (r: Question)
    ensures r == q.(options := r.options, correctAnswers := r.correctAnswers)
    ensures r.options == CleanOptions(q.options)
    ensures KeyInRange(r) && |r.correctAnswers| <= |q.correctAnswers|
  {
    q.(options := CleanOptions(q.options), correctAnswers := RemapKey(q.correctAnswers, KeptIndices(q.options)))
  }

  /** How the key is remapped: an entry that named a kept option names the
      same text afterwards, every new entry stands for an old entry with the
      same text, and entries that named blank options are dropped with no
      fallback, so the key may end up empty. */
  lemma CleanQuestionKey(q: Question)
    ensures var r := CleanQuestion(q);
            forall j :: 0 <= j < |q.correctAnswers| && 0 <= q.correctAnswers[j] < |q.options|
                        && !IsBlank(q.options[q.correctAnswers[j]]) ==>
              var n := IndexOf(KeptIndices(q.options), q.correctAnswers[j]);
              n in r.correctAnswers && r.options[n] == q.options[q.correctAnswers[j]]
    ensures var r := CleanQuestion(q);
            forall k :: 0 <= k < |r.correctAnswers| ==>
              var was := KeptIndices(q.options)[r.correctAnswers[k]];
              was in q.correctAnswers && r.options[r.correctAnswers[k]] == q.options[was]
    ensures var r := CleanQuestion(q);
            r.correctAnswers == [] <==>
              forall j :: 0 <= j < |q.correctAnswers| && 0 <= q.correctAnswers[j] < |q.options|
                          ==> IsBlank(q.options[q.correctAnswers[j]])
  {
    var kept := KeptIndices(q.options);
    var r := CleanQuestion(q);
    forall j | 0 <= j < |q.correctAnswers| && 0 <= q.correctAnswers[j] < |q.options|
               && !IsBlank(q.options[q.correctAnswers[j]])
      ensures IndexOf(kept, q.correctAnswers[j]) in r.correctAnswers
      ensures r.options[IndexOf(kept, q.correctAnswers[j])] == q.options[q.correctAnswers[j]]
    {
      assert q.correctAnswers[j] in kept;
    }
  }

  const DefaultTitle := "Jogo de Quiz"

  /** The host page's initial game settings. */
  const DefaultSettings := GameSettings(5, 20)

  /** The arguments of the `createGame` message. */
  datatype CreateRequest = CreateRequest(title: string, questions: seq<Question>, settings: GameSettings)

  /** `createGame`: nothing is sent for an empty quiz; otherwise every
      question is cleaned, in order. */
  function CreateGame(qs: seq<Question>, settings: GameSettings): (r: Option<CreateRequest>)
    ensures r.None? <==> |qs| == 0
    ensures r.Some? ==>
              r.value.title == DefaultTitle && r.value.settings == settings
              && |r.value.questions| == |qs|
              && forall i :: 0 <= i < |qs| ==> r.value.questions[i] == CleanQuestion(qs[i])
  {
    if |qs| == 0 then None
    else Some(CreateRequest(DefaultTitle, seq(|qs|, i requires 0 <= i < |qs| => CleanQuestion(qs[i])), settings))
  }

  /** The positions `lo, lo + 1, ..., hi - 1`. */
  function Range(lo: int, hi: int): seq<int>
    decreases hi - lo
  {
    if lo >= hi then [] else [lo] + Range(lo + 1, hi)
  }

  lemma {:induction false} RangeAt(lo: int, hi: int)
    requires lo <= hi
    ensures |Range(lo, hi)| == hi - lo
    ensures forall k :: 0 <= k < hi - lo ==> Range(lo, hi)[k] == lo + k
    decreases hi - lo
  {
    if lo < hi {
      RangeAt(lo + 1, hi);
    }
  }

  /** With no blank option, the kept positions are all positions. */
  lemma {:induction false} KeptFromAll(options: seq<string>, from: nat)
    requires from <= |options|
    requires forall i :: 0 <= i < |options| ==> !IsBlank(options[i])
    ensures KeptFrom(options, from) == Range(from, |options|)
    decreases |options| - from
  {
    if from < |options| {
      calc {
        KeptFrom(options, from);
        { KeptFromNonBlank(options, from); }
        [from] + KeptFrom(options, from + 1);
        { KeptFromAll(options, from + 1); }
        [from] + Range(from + 1, |options|);
        Range(from, |options|);
      }
    }
  }

  /** A non-blank option at `from` is kept. */
  lemma KeptFromNonBlank(options: seq<string>, from: nat)
    requires from < |options| && !IsBlank(options[from])
    ensures KeptFrom(options, from) == [from] + KeptFrom(options, from + 1)
  {
  }

  lemma {:induction false} RemapKeyIdentity(ca: seq<int>, kept: seq<int>)
    requires forall k :: 0 <= k < |kept| ==> kept[k] == k
    requires forall j :: 0 <= j < |ca| ==> 0 <= ca[j] < |kept|
    ensures RemapKey(ca, kept) == ca
  {
    if |ca| > 0 {
      var n := IndexOf(kept, ca[0]);
      assert kept[ca[0]] == ca[0] && kept[n] == n;
      RemapKeyIdentity(ca[1..], kept);
      assert RemapKey(ca, kept) == [ca[0]] + ca[1..];
    }
  }

  lemma PickIdentity(options: seq<string>, kept: seq<int>)
    requires |kept| == |options| && forall k :: 0 <= k < |kept| ==> kept[k] == k
    ensures Pick(options, kept) == options
  {
  }

  /** With no blank option, every option is kept, in place. */
  lemma CleanOptionsKeepsAll(options: seq<string>)
    requires forall i :: 0 <= i < |options| ==> !IsBlank(options[i])
    ensures KeptIndices(options) == seq(|options|, k => k)
    ensures CleanOptions(options) == options
  {
    KeptFromAll(options, 0);
    RangeAt(0, |options|);
    PickIdentity(options, KeptIndices(options));
  }

  /** A question without blank options and with a key in range is sent
      unchanged. */
  lemma CleanQuestionKeepsCleanQuestion(q: Question)
    requires forall i :: 0 <= i < |q.options| ==> !IsBlank(q.options[i])
    requires KeyInRange(q)
    ensures CleanQuestion(q) == q
  {
    CleanOptionsKeepsAll(q.options);
    RemapKeyIdentity(q.correctAnswers, KeptIndices(q.options));
  }

  /** A blank option means fewer positions are kept than there are options. */
  lemma {:induction false} KeptFromShorter(options: seq<string>, from: nat, j: nat)
    requires from <= j < |options| && IsBlank(options[j])
    ensures |KeptFrom(options, from)| < |options| - from
    decreases |options| - from
  {
    var rest := KeptFrom(options, from + 1);
    var head := if IsBlank(options[from]) then [] else [from];
    assert KeptFrom(options, from) == head + rest;
    if from < j {
      KeptFromShorter(options, from + 1, j);
    } else {
      KeptFromAtMost(options, from + 1);
      assert head == [];
    }
  }

  /** Never more positions are kept than there are options. */
  lemma {:induction false} KeptFromAtMost(options: seq<string>, from: nat)
    requires from <= |options|
    ensures |KeptFrom(options, from)| <= |options| - from
    decreases |options| - from
  {
    if from < |options| {
      KeptFromAtMost(options, from + 1);
      var head := if IsBlank(options[from]) then [] else [from];
      assert KeptFrom(options, from) == head + KeptFrom(options, from + 1);
    }
  }
}
