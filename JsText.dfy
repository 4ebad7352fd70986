/** The JavaScript string primitives the authoring code relies on:
    `String.prototype.trim`, `toLowerCase` on header names, and the `||`
    fallback that treats the empty string as false. */
module JsText {

  import opened Optional

  /** ECMAScript WhiteSpace and LineTerminator code points, which `trim` removes. */
  const Whitespace: set<char> :=
    {'\t', '\n', '\U{000B}', '\U{000C}', '\r', ' ', '\U{00A0}', '\U{1680}',
     '\U{2000}', '\U{2001}', '\U{2002}', '\U{2003}', '\U{2004}', '\U{2005}',
     '\U{2006}', '\U{2007}', '\U{2008}', '\U{2009}', '\U{200A}',
     '\U{2028}', '\U{2029}', '\U{202F}', '\U{205F}', '\U{3000}', '\U{FEFF}'}

  predicate IsWhitespace(c: char) {
    c in Whitespace
  }

  /** `s` with its leading whitespace removed. */
  function TrimStart(s: string): (r: string)
    ensures |r| <= |s| && r == s[|s| - |r|..]
    ensures r == [] || !IsWhitespace(r[0])
  {
    if |s| > 0 && IsWhitespace(s[0]) then TrimStart(s[1..]) else s
  }

  /** `s` with its trailing whitespace removed. */
  function TrimEnd(s: string): (r: string)
    ensures |r| <= |s| && r == s[..|r|]
    ensures r == [] || !IsWhitespace(r[|r| - 1])
  {
    if |s| > 0 && IsWhitespace(s[|s| - 1]) then TrimEnd(s[..|s| - 1]) else s
  }

  /** What `TrimStart` removes is whitespace. */
  lemma {:induction false} TrimStartRemovesSpace(s: string)
    ensures forall i :: 0 <= i < |s| - |TrimStart(s)| ==> IsWhitespace(s[i])
  {
    if |s| > 0 && IsWhitespace(s[0]) {
      TrimStartRemovesSpace(s[1..]);
      assert forall i :: 1 <= i < |s| ==> s[i] == s[1..][i - 1];
    }
  }

  /** What `TrimEnd` removes is whitespace. */
  lemma {:induction false} TrimEndRemovesSpace(s: string)
    ensures forall i :: |TrimEnd(s)| <= i < |s| ==> IsWhitespace(s[i])
  {
    if |s| > 0 && IsWhitespace(s[|s| - 1]) {
      TrimEndRemovesSpace(s[..|s| - 1]);
      assert forall i :: 0 <= i < |s| - 1 ==> s[i] == s[..|s| - 1][i];
    }
  }

  /** A string with neither leading nor trailing whitespace. */
  predicate IsTrimmed(s: string) {
    s == [] || (!IsWhitespace(s[0]) && !IsWhitespace(s[|s| - 1]))
  }

  /** `s.trim()`. */
  function Trim(s: string): (r: string)
    ensures |r| <= |s|
    ensures IsTrimmed(r)
  {
    TrimEnd(TrimStart(s))
  }

  /** What `trim` keeps is the infix of `s` between its leading and its
      trailing whitespace. */
  lemma TrimIsInfix(s: string)
    ensures var t := TrimStart(s);
            var p := |s| - |t|;
            var r := TrimEnd(t);
            r == Trim(s) && p + |r| <= |s| && r == s[p..p + |r|]
            && (forall i :: 0 <= i < p ==> IsWhitespace(s[i]))
            && (forall i :: p + |r| <= i < |s| ==> IsWhitespace(s[i]))
  {
    TrimStartRemovesSpace(s);
    TrimInfixTail(s, TrimStart(s));
  }

  lemma TrimInfixTail(s: string, t: string)
    requires |t| <= |s| && t == s[|s| - |t|..]
    ensures var p := |s| - |t|;
            var r := TrimEnd(t);
            p + |r| <= |s| && r == s[p..p + |r|]
            && forall i :: p + |r| <= i < |s| ==> IsWhitespace(s[i])
  {
    var p := |s| - |t|;
    var r := TrimEnd(t);
    TrimEndRemovesSpace(t);
    forall i | p + |r| <= i < |s|
      ensures IsWhitespace(s[i])
    {
      assert s[i] == t[i - p];
    }
  }

  /** Trimming removes nothing from a string that is already trimmed; in
      particular `trim` is idempotent. */
  lemma TrimOfTrimmed(s: string)
    requires IsTrimmed(s)
    ensures Trim(s) == s
  {
    assert TrimStart(s) == s;
    assert TrimEnd(s) == s;
  }

  /** A string made of whitespace only (the empty string included). */
  predicate IsBlank(s: string) {
    forall i :: 0 <= i < |s| ==> IsWhitespace(s[i])
  }

  /** `s.trim() === ''` exactly when every character of `s` is whitespace. */
  lemma BlankIffTrimEmpty(s: string)
    ensures Trim(s) == [] <==> IsBlank(s)
  {
    if IsBlank(s) {
      AllWhitespaceTrimStart(s);
    } else {
      TrimIsInfix(s);
    }
  }

  lemma {:induction false} AllWhitespaceTrimStart(s: string)
    requires IsBlank(s)
    ensures TrimStart(s) == []
  {
    if |s| > 0 {
      AllWhitespaceTrimStart(s[1..]);
    }
  }

  /** JavaScript `s || fallback` on a string: the empty string is falsy. */
  function OrElse(s: string, fallback: string): (r: string)
    ensures s != "" ==> r == s
    ensures s == "" ==> r == fallback
    ensures r == "" ==> s == "" && fallback == ""
  {
    if s == "" then fallback else s
  }

  /** JavaScript `o || fallback` on an optional string: both `undefined` and
      `''` fall back. */
  function OptOrElse(o: Option<string>, fallback: string): (r: string)
    ensures o.Some? && o.value != "" ==> r == o.value
    ensures o.None? || o.value == "" ==> r == fallback
  {
    match o
    case None => fallback
    case Some(s) => OrElse(s, fallback)
  }

  /** Truthiness of an optional string: defined and not empty. */
  predicate Truthy(o: Option<string>) {
    o.Some? && o.value != ""
  }

  /** JavaScript `o || undefined` on an optional string. */
  function OrUndefined(o: Option<string>): (r: Option<string>)
    ensures Truthy(o) ==> r == o
    ensures !Truthy(o) ==> r == None
  {
    if Truthy(o) then o else None
  }

  function LowerChar(c: char): char {
    if 'A' <= c <= 'Z' then (c as int + 32) as char else c
  }

  /** `s` has no ASCII capital letter. */
  predicate NoUpper(s: string) {
    |s| == 0 || (!('A' <= s[0] <= 'Z') && NoUpper(s[1..]))
  }

  lemma {:induction false} NoUpperAt(s: string)
    requires NoUpper(s)
    ensures forall i :: 0 <= i < |s| ==> !('A' <= s[i] <= 'Z')
  {
    if |s| > 0 {
      NoUpperAt(s[1..]);
      assert forall i :: 1 <= i < |s| ==> s[i] == s[1..][i - 1];
    }
  }

  /** `s.toLowerCase()` on the ASCII letters. */
  function LowerAscii(s: string): (r: string)
    ensures |r| == |s| && forall i :: 0 <= i < |s| ==> r[i] == LowerChar(s[i])
  {
    seq(|s|, i requires 0 <= i < |s| => LowerChar(s[i]))
  }

  /** Lowercasing a string without capitals changes nothing. */
  lemma LowerAsciiOfNoUpper(s: string)
    requires NoUpper(s)
    ensures LowerAscii(s) == s
  {
    NoUpperAt(s);
  }

  /** Lowercasing leaves no ASCII capital. */
  lemma LowerAsciiHasNoUpper(s: string)
    ensures forall i :: 0 <= i < |LowerAscii(s)| ==> !('A' <= LowerAscii(s)[i] <= 'Z')
  {
  }

  /** A string with no capital at any position is its own lowercase. */
  lemma LowerAsciiFixed(s: string)
    requires forall i :: 0 <= i < |s| ==> !('A' <= s[i] <= 'Z')
    ensures LowerAscii(s) == s
  {
  }
}
