/** `shuffleArray` of the host page: a Fisher–Yates shuffle of a copy of the
    input array. The random draws `Math.floor(Math.random() * (i + 1))` are a
    parameter: `js[i]` is the position swapped with position `i`. */
module Shuffle {

  import opened SeqOps

  /** Draws that `Math.random` can produce for an array of length `n`: the
      draw for step `i` lies in `[0, i]` (`js[0]` is never used). */
  predicate ValidChoices(js: seq<int>, n: nat) {
    |js| == n && forall i :: 0 < i < n ==> 0 <= js[i] <= i
  }

  /** The loop steps `i, i - 1, ..., 1` applied to `s`. */
  function StepsDown<T>(s: seq<T>, js: seq<int>, i: int): (r: seq<T>)
    requires i < |s| && |js| == |s|
    requires forall k :: 0 < k <= i ==> 0 <= js[k] <= k
    ensures |r| == |s|
    decreases i
  {
    if i <= 0 then s else StepsDown(Swap(s, i, js[i]), js, i - 1)
  }

  /** The whole shuffle: every step from the last position down to 1. */
  function FisherYates<T>(s: seq<T>, js: seq<int>): seq<T>
    requires ValidChoices(js, |s|)
  {
    StepsDown(s, js, |s| - 1)
  }

  /** Every run of the loop's steps rearranges its input. */
  lemma {:induction false} StepsDownPermutes<T>(s: seq<T>, js: seq<int>, i: int)
    requires i < |s| && |js| == |s|
    requires forall k :: 0 < k <= i ==> 0 <= js[k] <= k
    ensures multiset(StepsDown(s, js, i)) == multiset(s)
    decreases i
  {
    if i > 0 {
      SwapPermutes(s, i, js[i]);
      StepsDownPermutes(Swap(s, i, js[i]), js, i - 1);
    }
  }

  /** Whatever the draws, the shuffle is a permutation of its input of the
      same length. */
  lemma FisherYatesPermutes<T>(s: seq<T>, js: seq<int>)
    requires ValidChoices(js, |s|)
    ensures |FisherYates(s, js)| == |s|
    ensures multiset(FisherYates(s, js)) == multiset(s)
  {
    StepsDownPermutes(s, js, |s| - 1);
  }

  /** The loop of `shuffleArray`, run on a fresh copy of `a`. The method has
      no `modifies` clause, so `a` itself is left as it was. */
  method ShuffleArray<T>(a: array<T>, js: seq<int>) returns (r: seq<T>)
    requires ValidChoices(js, a.Length)
    ensures r == FisherYates(a[..], js)
    ensures multiset(r) == multiset(a[..])
  {
    var shuffled := new T[a.Length](k reads a requires 0 <= k < a.Length => a[k]);
    assert shuffled[..] == a[..];
    var i := a.Length - 1;
    while i > 0
      invariant -1 <= i < a.Length
      invariant StepsDown(shuffled[..], js, i) == FisherYates(a[..], js)
      decreases i
    {
      var j := js[i];
      ghost var before := shuffled[..];
      shuffled[i], shuffled[j] := shuffled[j], shuffled[i];
      assert shuffled[..] == Swap(before, i, j);
      i := i - 1;
    }
    r := shuffled[..];
    FisherYatesPermutes(a[..], js);
  }
}
