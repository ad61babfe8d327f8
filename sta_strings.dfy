/** The string helpers of the StaMina plugin: `camelCase`, `snakeCase`,
    `kebabCase` and `replaceAll`. Case mapping is ASCII. */
module StaStrings {
  import opened JsText

  /** The characters of the `[-_\s]` class in `camelCase`'s pattern. */
  predicate IsSep(c: char)
  {
    c == '-' || c == '_' || IsSpace(c)
  }

  predicate NoSep(s: string)
  {
    forall i :: 0 <= i < |s| ==> !IsSep(s[i])
  }

  /** What is left after a run of separators at the front. */
  function DropSeps(s: string): (r: string)
    ensures |r| <= |s| && r == s[|s| - |r|..]
    ensures r == [] || !IsSep(r[0])
    ensures forall i :: 0 <= i < |s| - |r| ==> IsSep(s[i])
  {
    if s != [] && IsSep(s[0]) then
      var r := DropSeps(s[1..]);
      assert s[1..][|s| - 1 - |r|..] == s[|s| - |r|..];
      assert forall i :: 1 <= i < |s| - |r| ==> s[i] == s[1..][i - 1];
      r
    else s
  }

  /** `S.camelCase(str)`: every maximal run of `-`, `_` and whitespace is
      removed together with the character after it, which comes back
      upper-cased; a run at the very end just disappears. The character
      after a run is never a line terminator, since those are whitespace
      and belong to the run. */
  function CamelCase(s: string): (r: string)
    ensures NoSep(r)
    ensures |r| <= |s|
  {
    if s == [] then []
    else if IsSep(s[0]) then
      var t := DropSeps(s);
      if t == [] then [] else [UpperChar(t[0])] + CamelCase(t[1..])
    else [s[0]] + CamelCase(s[1..])
  }

  /** A word without separators passes through unchanged. */
  lemma {:induction false} CamelCaseWord(w: string, rest: string)
    requires NoSep(w)
    ensures CamelCase(w + rest) == w + CamelCase(rest)
  {
    if w != [] {
      assert (w + rest)[1..] == w[1..] + rest;
      CamelCaseWord(w[1..], rest);
    } else {
      assert w + rest == rest;
    }
  }

  /** A run of separators followed by `c` becomes `c` upper-cased. */
  lemma {:induction false} CamelCaseRun(run: string, c: char, rest: string)
    requires run != [] && forall i :: 0 <= i < |run| ==> IsSep(run[i])
    requires !IsSep(c)
    ensures CamelCase(run + [c] + rest) == [UpperChar(c)] + CamelCase(rest)
  {
    DropRun(run, [c] + rest);
    assert run + [c] + rest == run + ([c] + rest);
  }

  /** A trailing run of separators disappears. */
  lemma TrailingRun(run: string)
    requires forall i :: 0 <= i < |run| ==> IsSep(run[i])
    ensures CamelCase(run) == []
  {
    if run != [] {
      DropRun(run, []);
      assert run + [] == run;
    }
  }

  lemma {:induction false} DropRun(run: string, rest: string)
    requires forall i :: 0 <= i < |run| ==> IsSep(run[i])
    requires rest == [] || !IsSep(rest[0])
    ensures DropSeps(run + rest) == rest
  {
    if run != [] {
      assert (run + rest)[1..] == run[1..] + rest;
      DropRun(run[1..], rest);
    } else {
      assert run + rest == rest;
    }
  }

  /** Stage one of `snakeCase`/`kebabCase`: every maximal whitespace run becomes `sep`. */
  function SpacesTo(s: string, sep: string): (r: string)
    ensures NoSpace(sep) ==> NoSpace(r)
  {
    if s == [] then []
    else if IsSpace(s[0]) then TrimStartFacts(s); sep + SpacesTo(TrimStart(s), sep)
    else [s[0]] + SpacesTo(s[1..], sep)
  }

  /** Stage two: a separator goes between each lower-case letter and the
      upper-case letter that follows it. */
  function SplitHumps(s: string, sep: string): (r: string)
    ensures NoSpace(s) && NoSpace(sep) ==> NoSpace(r)
  {
    if |s| >= 2 && IsLower(s[0]) && IsUpper(s[1]) then [s[0]] + sep + [s[1]] + SplitHumps(s[2..], sep)
    else if s == [] then []
    else [s[0]] + SplitHumps(s[1..], sep)
  }

  predicate NoUpper(s: string)
  {
    forall i :: 0 <= i < |s| ==> !IsUpper(s[i])
  }

  /** The shared pipeline of `snakeCase` and `kebabCase`, ending with `toLowerCase`. */
  function Delimit(s: string, sep: string): (r: string)
    ensures NoSpace(sep) ==> NoSpace(r)
    ensures NoUpper(r)
  {
    Lower(SplitHumps(SpacesTo(s, sep), sep))
  }

  /** `S.snakeCase(str)`: no whitespace and no upper case is left, and
      text without whitespace or humps only has its letters lower-cased. */
  function SnakeCase(s: string): (r: string)
    ensures NoSpace(r) && NoUpper(r)
    ensures NoSpace(s) && NoHump(s) ==> r == Lower(s)
  {
    DelimitLowersOthers(s, "_");
    Delimit(s, "_")
  }

  /** `S.kebabCase(str)`: the same with `-`. */
  function KebabCase(s: string): (r: string)
    ensures NoSpace(r) && NoUpper(r)
    ensures NoSpace(s) && NoHump(s) ==> r == Lower(s)
  {
    DelimitLowersOthers(s, "-");
    Delimit(s, "-")
  }

  lemma {:induction false} SpacesToIdentity(s: string, sep: string)
    requires NoSpace(s)
    ensures SpacesTo(s, sep) == s
  {
    if s != [] {
      SpacesToIdentity(s[1..], sep);
    }
  }

  lemma {:induction false} SplitHumpsIdentity(s: string, sep: string)
    requires NoUpper(s)
    ensures SplitHumps(s, sep) == s
  {
    if s != [] {
      SplitHumpsIdentity(s[1..], sep);
    }
  }

  /** A string with no whitespace and no upper-case letters is already in
      either case, so both converters are idempotent. */
  lemma DelimitFixpoint(s: string, sep: string)
    requires NoSpace(s) && NoUpper(s)
    ensures Delimit(s, sep) == s
  {
    SpacesToIdentity(s, sep);
    SplitHumpsIdentity(s, sep);
    assert Lower(s) == s;
  }

  lemma CaseIdempotent(s: string)
    ensures SnakeCase(SnakeCase(s)) == SnakeCase(s)
    ensures KebabCase(KebabCase(s)) == KebabCase(s)
  {
    DelimitFixpoint(SnakeCase(s), "_");
    DelimitFixpoint(KebabCase(s), "-");
  }

  /** `TrimStart` removes exactly a leading whitespace run. */
  lemma {:induction false} TrimRun(run: string, rest: string)
    requires forall i :: 0 <= i < |run| ==> IsSpace(run[i])
    requires rest == [] || !IsSpace(rest[0])
    ensures TrimStart(run + rest) == rest
  {
    if run != [] {
      assert (run + rest)[1..] == run[1..] + rest;
      TrimRun(run[1..], rest);
    } else {
      assert run + rest == rest;
    }
  }

  /** Stage one replaces a maximal whitespace run, whether a non-space
      character or the end follows it, by one `sep`... */
  lemma SpacesToRun(run: string, rest: string, sep: string)
    requires run != [] && forall i :: 0 <= i < |run| ==> IsSpace(run[i])
    requires rest == [] || !IsSpace(rest[0])
    ensures SpacesTo(run + rest, sep) == sep + SpacesTo(rest, sep)
  {
    TrimRun(run, rest);
    assert (run + rest)[0] == run[0];
  }

  /** ... and keeps every other character. */
  lemma SpacesToKeeps(c: char, rest: string, sep: string)
    requires !IsSpace(c)
    ensures SpacesTo([c] + rest, sep) == [c] + SpacesTo(rest, sep)
  {
    assert ([c] + rest)[1..] == rest;
  }

  /** Text without whitespace passes stage one unchanged. */
  lemma {:induction false} SpacesToWord(w: string, rest: string, sep: string)
    requires NoSpace(w)
    ensures SpacesTo(w + rest, sep) == w + SpacesTo(rest, sep)
  {
    if w != [] {
      assert w + rest == [w[0]] + (w[1..] + rest);
      SpacesToKeeps(w[0], w[1..] + rest, sep);
      SpacesToWord(w[1..], rest, sep);
    } else {
      assert w + rest == rest;
    }
  }

  /** Stage two puts `sep` between a lower-case letter and the upper-case
      letter after it... */
  lemma SplitHumpsHump(a: char, b: char, rest: string, sep: string)
    requires IsLower(a) && IsUpper(b)
    ensures SplitHumps([a, b] + rest, sep) == [a] + sep + [b] + SplitHumps(rest, sep)
  {
    assert ([a, b] + rest)[2..] == rest;
  }

  /** ... and keeps every character that does not start such a pair. */
  lemma SplitHumpsKeeps(c: char, rest: string, sep: string)
    requires !(IsLower(c) && rest != [] && IsUpper(rest[0]))
    ensures SplitHumps([c] + rest, sep) == [c] + SplitHumps(rest, sep)
  {
    assert ([c] + rest)[1..] == rest;
  }

  /** No lower-case letter is followed by an upper-case one. */
  predicate NoHump(s: string)
  {
    forall i :: 0 <= i < |s| - 1 ==> !(IsLower(s[i]) && IsUpper(s[i + 1]))
  }

  lemma {:induction false} SplitHumpsNoHump(s: string, sep: string)
    requires NoHump(s)
    ensures SplitHumps(s, sep) == s
  {
    if s != [] {
      assert s == [s[0]] + s[1..];
      SplitHumpsKeeps(s[0], s[1..], sep);
      SplitHumpsNoHump(s[1..], sep);
    }
  }

  /** Text with neither whitespace nor a hump keeps every character, and
      the last stage lower-cases each of them. */
  lemma DelimitLowersOthers(s: string, sep: string)
    ensures NoSpace(s) && NoHump(s) ==>
              Delimit(s, sep) == Lower(s) &&
              forall i :: 0 <= i < |s| ==> Delimit(s, sep)[i] == LowerChar(s[i])
  {
    if NoSpace(s) && NoHump(s) {
      SpacesToIdentity(s, sep);
      SplitHumpsNoHump(s, sep);
    }
  }

  /** Stage one on two words with a whitespace run between them. */
  lemma SpacesToWords(w1: string, run: string, w2: string, sep: string)
    requires NoSpace(w1) && NoSpace(w2)
    requires run != [] && forall i :: 0 <= i < |run| ==> IsSpace(run[i])
    ensures SpacesTo(w1 + run + w2, sep) == w1 + sep + w2
  {
    assert w1 + run + w2 == w1 + (run + w2);
    SpacesToWord(w1, run + w2, sep);
    SpacesToRun(run, w2, sep);
    SpacesToIdentity(w2, sep);
  }

  /** Two words without whitespace or upper case, with a whitespace run
      between them, come out joined by `sep`. */
  lemma DelimitWords(w1: string, run: string, w2: string, sep: string)
    requires NoSpace(w1) && NoUpper(w1) && NoSpace(w2) && NoUpper(w2)
    requires run != [] && forall i :: 0 <= i < |run| ==> IsSpace(run[i])
    requires NoSpace(sep) && NoUpper(sep)
    ensures Delimit(w1 + run + w2, sep) == w1 + sep + w2
  {
    SpacesToWords(w1, run, w2, sep);
    var t := w1 + sep + w2;
    assert NoUpper(t);
    SplitHumpsIdentity(t, sep);
    assert Lower(t) == t;
  }

  /** So `hello world` becomes `hello_world` and `hello-world`. */
  lemma WordsJoined(w1: string, run: string, w2: string)
    requires NoSpace(w1) && NoUpper(w1) && NoSpace(w2) && NoUpper(w2)
    requires run != [] && forall i :: 0 <= i < |run| ==> IsSpace(run[i])
    ensures SnakeCase(w1 + run + w2) == w1 + "_" + w2
    ensures KebabCase(w1 + run + w2) == w1 + "-" + w2
  {
    DelimitWords(w1, run, w2, "_");
    DelimitWords(w1, run, w2, "-");
  }

  /** `S.replaceAll(str, search, replace)`: `str.split(search).join(replace)`. */
  function ReplaceAll(s: string, search: string, replace: string): (r: string)
  {
    Join(Split(s, search), replace)
  }

  /** Splitting and joining with the same separator gives back the string. */
  lemma SplitJoin(s: string, sep: string)
    ensures Join(Split(s, sep), sep) == s
  {
    if sep == [] {
      SplitCharsJoin(s);
    } else {
      SplitOnJoin(s, sep);
    }
  }

  lemma {:induction false} SplitCharsJoin(s: string)
    ensures Join(SplitChars(s), "") == s
  {
    if |s| >= 2 {
      SplitCharsJoin(s[1..]);
      assert SplitChars(s)[1..] == SplitChars(s[1..]);
    }
  }

  lemma {:induction false} SplitOnJoin(s: string, sep: string)
    requires sep != []
    ensures Join(SplitOn(s, sep), sep) == s
    decreases |s|
  {
    var i := IndexOf(s, sep);
    if i >= 0 {
      var tail := s[i + |sep|..];
      var rest := SplitOn(tail, sep);
      assert SplitOn(s, sep) == [s[..i]] + rest;
      SplitOnJoin(tail, sep);
      JoinCons(s[..i], rest, sep);
      assert s[i..i + |sep|] == sep;
      ThreeParts(s, i, i + |sep|);
    } else {
      assert SplitOn(s, sep) == [s];
    }
  }

  lemma ThreeParts(s: string, i: nat, j: nat)
    requires i <= j <= |s|
    ensures s == s[..i] + s[i..j] + s[j..]
  {
  }

  lemma JoinCons(a: string, rest: seq<string>, sep: string)
    requires |rest| >= 1
    ensures Join([a] + rest, sep) == a + sep + Join(rest, sep)
  {
    assert ([a] + rest)[1..] == rest;
  }

  /** No piece of a split contains the separator. */
  lemma {:induction false} SplitPiecesFree(s: string, sep: string)
    requires sep != []
    ensures forall p :: p in SplitOn(s, sep) ==> !Includes(p, sep)
    decreases |s|
  {
    var i := IndexOf(s, sep);
    if i >= 0 {
      SplitPiecesFree(s[i + |sep|..], sep);
      assert !Includes(s[..i], sep) by {
        forall k | InfixAt(sep, s[..i], k) ensures false {
          assert InfixAt(sep, s, k);
        }
      }
    }
  }

  /** Replacing a pattern by itself changes nothing, and a pattern that does
      not occur leaves the string as it is. */
  lemma ReplaceAllIdentity(s: string, search: string, replace: string)
    ensures ReplaceAll(s, search, search) == s
    ensures search != [] && !Includes(s, search) ==> ReplaceAll(s, search, replace) == s
  {
    SplitJoin(s, search);
  }
}
