/** The array primitives the authoring code is built from, as functions on
    sequences: index filtering, swapping, splicing, padding and searching. */
module SeqOps {

  /** `s.filter((_, i) => i !== k)`: drops the element at position `k`, and
      nothing when `k` is not a position of `s`. */
  function WithoutIndex<T>(s: seq<T>, k: int): (r: seq<T>)
    ensures 0 <= k < |s| ==> r == s[..k] + s[k + 1..]
    ensures !(0 <= k < |s|) ==> r == s
  {
    if |s| == 0 then []
    else WithoutIndex(s[..|s| - 1], k) + (if k == |s| - 1 then [] else [s[|s| - 1]])
  }

  /** Removing a position takes exactly that element out of the multiset. */
  lemma {:induction false} WithoutIndexMultiset<T>(s: seq<T>, k: int)
    requires 0 <= k < |s|
    ensures multiset(WithoutIndex(s, k)) + multiset{s[k]} == multiset(s)
  {
    var r := WithoutIndex(s, k);
    assert s == s[..k] + ([s[k]] + s[k + 1..]);
    calc {
      multiset(s);
      multiset(s[..k]) + multiset([s[k]] + s[k + 1..]);
      multiset(s[..k]) + (multiset{s[k]} + multiset(s[k + 1..]));
      multiset(s[..k]) + multiset(s[k + 1..]) + multiset{s[k]};
      multiset(r) + multiset{s[k]};
    }
  }

  /** `[s[i], s[j]] = [s[j], s[i]]` on a copy of `s`. */
  function Swap<T>(s: seq<T>, i: int, j: int): (r: seq<T>)
    requires 0 <= i < |s| && 0 <= j < |s|
    ensures |r| == |s| && r[i] == s[j] && r[j] == s[i]
    ensures forall k :: 0 <= k < |s| && k != i && k != j ==> r[k] == s[k]
  {
    s[i := s[j]][j := s[i]]
  }

  /** A swap only rearranges. */
  lemma SwapPermutes<T>(s: seq<T>, i: int, j: int)
    requires 0 <= i < |s| && 0 <= j < |s|
    ensures multiset(Swap(s, i, j)) == multiset(s)
  {
  }

  /** `s.splice(k, 0, x)` on a copy of `s`. */
  function InsertAt<T>(s: seq<T>, k: int, x: T): (r: seq<T>)
    requires 0 <= k <= |s|
    ensures |r| == |s| + 1 && r[k] == x
    ensures forall i :: 0 <= i < k ==> r[i] == s[i]
    ensures forall i :: k < i < |r| ==> r[i] == s[i - 1]
  {
    s[..k] + [x] + s[k..]
  }

  /** Inserting at a position and then dropping that position gives back the
      original sequence. */
  lemma WithoutInserted<T>(s: seq<T>, k: int, x: T)
    requires 0 <= k <= |s|
    ensures WithoutIndex(InsertAt(s, k, x), k) == s
  {
    var t := InsertAt(s, k, x);
    assert t[..k] == s[..k];
    assert t[k + 1..] == s[k..];
    assert s == s[..k] + s[k..];
  }

  /** `Math.min(Math.max(i, lo), hi)`. */
  function Clamp(i: int, lo: int, hi: int): (r: int)
    requires lo <= hi
    ensures lo <= r <= hi
    ensures lo <= i <= hi ==> r == i
    ensures i < lo ==> r == lo
    ensures hi < i ==> r == hi
  {
    if i < lo then lo else if i > hi then hi else i
  }

  /** `Array(n).fill('')`. */
  function Blanks(n: nat): (r: seq<string>)
    ensures |r| == n && forall i :: 0 <= i < n ==> r[i] == ""
  {
    seq(n, _ => "")
  }

  /** `s` extended with empty strings to length `n` when it is shorter. */
  function PadTo(s: seq<string>, n: nat): (r: seq<string>)
    ensures |r| == if |s| < n then n else |s|
    ensures r[..|s|] == s
    ensures forall i :: |s| <= i < |r| ==> r[i] == ""
  {
    if |s| < n then s + Blanks(n - |s|) else s
  }

  /** `s.indexOf(x)`: the first position of `x` in `s`, or -1. */
  function IndexOf<T(==)>(s: seq<T>, x: T): (r: int)
    ensures -1 <= r < |s|
    ensures r == -1 <==> x !in s
    ensures 0 <= r ==> s[r] == x && forall i :: 0 <= i < r ==> s[i] != x
  {
    if |s| == 0 then -1
    else if s[0] == x then 0
    else
      var t := IndexOf(s[1..], x);
      if t == -1 then -1 else t + 1
  }

  /** `xs` is `ys` with some elements left out and the rest in their order,
      as the result of a `filter` is of its input. */
  predicate IsSubsequence<T(==)>(xs: seq<T>, ys: seq<T>)
    decreases |ys|
  {
    if |xs| == 0 then true
    else if |ys| == 0 then false
    else (xs[0] == ys[0] && IsSubsequence(xs[1..], ys[1..])) || IsSubsequence(xs, ys[1..])
  }

  /** A subsequence stays one when both sides gain the same first element. */
  lemma SubsequenceKeep<T>(x: T, xs: seq<T>, ys: seq<T>)
    requires IsSubsequence(xs, ys)
    ensures IsSubsequence([x] + xs, [x] + ys)
  {
    assert ([x] + xs)[1..] == xs;
    assert ([x] + ys)[1..] == ys;
  }

  /** A subsequence stays one when only the longer side gains an element. */
  lemma SubsequenceSkip<T>(x: T, xs: seq<T>, ys: seq<T>)
    requires IsSubsequence(xs, ys)
    ensures IsSubsequence(xs, [x] + ys)
  {
    assert ([x] + ys)[1..] == ys;
  }
}
