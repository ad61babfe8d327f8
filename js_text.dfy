/** The string operations of the JavaScript runtime that the toolkit calls:
    whitespace and `trim`, ASCII case mapping, `startsWith`, `includes`,
    `indexOf`, `split`, `join` and `replace` with a string pattern. */
module JsText {

  /** The characters that `String.prototype.trim` removes and that `\s`
      matches in a regular expression: WhiteSpace and LineTerminator. */
  predicate IsSpace(c: char)
  {
    c == '\t' || c == '\n' || c == '\U{000B}' || c == '\U{000C}' || c == '\r' || c == ' '
    || c == '\U{00A0}' || c == '\U{1680}' || ('\U{2000}' <= c <= '\U{200A}')
    || c == '\U{2028}' || c == '\U{2029}' || c == '\U{202F}' || c == '\U{205F}'
    || c == '\U{3000}' || c == '\U{FEFF}'
  }

  predicate NoSpace(s: string)
  {
    forall i :: 0 <= i < |s| ==> !IsSpace(s[i])
  }

  /** `str.trimStart()`. */
  function TrimStart(s: string): string
  {
    if s != [] && IsSpace(s[0]) then TrimStart(s[1..]) else s
  }

  /** `str.trimEnd()`. */
  function TrimEnd(s: string): string
  {
    if s != [] && IsSpace(s[|s| - 1]) then TrimEnd(s[..|s| - 1]) else s
  }

  /** `trimStart` drops exactly the leading whitespace: what is left is a
      suffix that does not start with whitespace, and all it dropped is
      whitespace. */
  lemma {:induction false} TrimStartFacts(s: string)
    ensures var r := TrimStart(s);
            |r| <= |s| && r == s[|s| - |r|..] && (r == [] || !IsSpace(r[0])) &&
            forall i :: 0 <= i < |s| - |r| ==> IsSpace(s[i])
  {
    if s != [] && IsSpace(s[0]) {
      TrimStartFacts(s[1..]);
      var r := TrimStart(s);
      assert s[1..][|s| - 1 - |r|..] == s[|s| - |r|..];
      forall i | 0 <= i < |s| - |r| ensures IsSpace(s[i]) {
        if i > 0 { assert s[i] == s[1..][i - 1]; }
      }
    }
  }

  /** `trimEnd` drops exactly the trailing whitespace. */
  lemma {:induction false} TrimEndFacts(s: string)
    ensures var r := TrimEnd(s);
            |r| <= |s| && r == s[..|r|] && (r == [] || !IsSpace(r[|r| - 1])) &&
            forall i :: |r| <= i < |s| ==> IsSpace(s[i])
  {
    if s != [] && IsSpace(s[|s| - 1]) {
      TrimEndFacts(s[..|s| - 1]);
      var r := TrimEnd(s);
      assert s[..|s| - 1][..|r|] == s[..|r|];
      forall i | |r| <= i < |s| ensures IsSpace(s[i]) {
        if i < |s| - 1 { assert s[i] == s[..|s| - 1][i]; }
      }
    }
  }

  /** `str.trim()`: whitespace removed from both ends. */
  function Trim(s: string): string
  {
    TrimEnd(TrimStart(s))
  }

  /** The trimmed string is an infix of the input that neither starts nor
      ends with whitespace. Kept apart from `Trim` so that a caller
      quantifying over trimmed strings does not carry these facts along. */
  lemma TrimInfix(s: string)
    ensures var r := Trim(s);
            |r| <= |s| && (r == [] || (!IsSpace(r[0]) && !IsSpace(r[|r| - 1]))) &&
            InfixAt(r, s, |s| - |TrimStart(s)|)
  {
    var t := TrimStart(s);
    var r := TrimEnd(t);
    TrimStartFacts(s);
    TrimEndFacts(t);
    assert s[|s| - |t|..][..|r|] == s[|s| - |t|..|s| - |t| + |r|];
  }

  /** `r` occurs in `s` at position `k`. */
  predicate InfixAt(r: string, s: string, k: int)
  {
    0 <= k && k + |r| <= |s| && s[k..k + |r|] == r
  }

  /** ASCII upper-casing of one character; other characters are kept. */
  function UpperChar(c: char): (u: char)
    ensures 'a' <= c <= 'z' ==> 'A' <= u <= 'Z'
    ensures !('a' <= c <= 'z') ==> u == c
  {
    if 'a' <= c <= 'z' then (c as int - 32) as char else c
  }

  /** ASCII lower-casing of one character; other characters are kept. */
  function LowerChar(c: char): (l: char)
    ensures 'A' <= c <= 'Z' ==> 'a' <= l <= 'z'
    ensures !('A' <= c <= 'Z') ==> l == c
  {
    if 'A' <= c <= 'Z' then (c as int + 32) as char else c
  }

  predicate IsUpper(c: char) { 'A' <= c <= 'Z' }
  predicate IsLower(c: char) { 'a' <= c <= 'z' }

  /** `str.toUpperCase()` on ASCII letters. */
  function Upper(s: string): (r: string)
    ensures |r| == |s|
    ensures forall i :: 0 <= i < |s| ==> r[i] == UpperChar(s[i])
  {
    if s == [] then [] else [UpperChar(s[0])] + Upper(s[1..])
  }

  /** `str.toLowerCase()` on ASCII letters. */
  function Lower(s: string): (r: string)
    ensures |r| == |s|
    ensures forall i :: 0 <= i < |s| ==> r[i] == LowerChar(s[i])
  {
    if s == [] then [] else [LowerChar(s[0])] + Lower(s[1..])
  }

  predicate StartsWith(s: string, prefix: string)
  {
    |prefix| <= |s| && s[..|prefix|] == prefix
  }

  /** `s.indexOf(t, from)`: the first position at or after `from` where `t` occurs, or -1. */
  function IndexFrom(s: string, t: string, from: nat): (r: int)
    decreases |s| - from
    ensures r == -1 || (from <= r && InfixAt(t, s, r))
    ensures r == -1 ==> forall k :: from <= k ==> !InfixAt(t, s, k)
    ensures r != -1 ==> forall k :: from <= k < r ==> !InfixAt(t, s, k)
  {
    if from + |t| > |s| then -1
    else if s[from..from + |t|] == t then from
    else IndexFrom(s, t, from + 1)
  }

  function IndexOf(s: string, t: string): (r: int)
    ensures r == -1 || InfixAt(t, s, r)
    ensures r == -1 ==> forall k :: !InfixAt(t, s, k)
    ensures r != -1 ==> forall k :: 0 <= k < r ==> !InfixAt(t, s, k)
  {
    IndexFrom(s, t, 0)
  }

  /** `s.includes(t)`. */
  predicate Includes(s: string, t: string)
  {
    IndexOf(s, t) != -1
  }

  /** `s.split('')`: one string per character. */
  function SplitChars(s: string): (parts: seq<string>)
    ensures |parts| == |s|
    ensures forall i :: 0 <= i < |s| ==> parts[i] == [s[i]]
  {
    if s == [] then [] else [[s[0]]] + SplitChars(s[1..])
  }

  /** `s.split(sep)` for a non-empty separator: the pieces between the
      non-overlapping occurrences of `sep`, found from the left. */
  function SplitOn(s: string, sep: string): (parts: seq<string>)
    requires sep != []
    ensures |parts| >= 1
    decreases |s|
  {
    var i := IndexOf(s, sep);
    if i < 0 then [s] else [s[..i]] + SplitOn(s[i + |sep|..], sep)
  }

  /** `s.split(sep)`. */
  function Split(s: string, sep: string): (parts: seq<string>)
  {
    if sep == [] then SplitChars(s) else SplitOn(s, sep)
  }

  /** `parts.join(sep)`. */
  function Join(parts: seq<string>, sep: string): (r: string)
  {
    if |parts| == 0 then ""
    else if |parts| == 1 then parts[0]
    else parts[0] + sep + Join(parts[1..], sep)
  }

  /** `s.replace(pat, rep)` with a string pattern: only the first occurrence
      is replaced; an empty pattern matches at the start. */
  function ReplaceFirst(s: string, pat: string, rep: string): (r: string)
  {
    var i := IndexOf(s, pat);
    if i < 0 then s else s[..i] + rep + s[i + |pat|..]
  }
}
