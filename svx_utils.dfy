/** Small helpers of the core object: the vendor-prefix expansion of style
    objects, `formatDate`'s token replacement, `truncate`, `capitalize` and
    the display flip of `toggle`. */
module SvxUtils {
  import opened JsCore
  import opened JsText

  // ---------------------------------------------------------------------
  // _addPrefix
  // ---------------------------------------------------------------------

  const Prefixes: seq<string> := ["webkit", "moz", "ms", "o"]

  /** Properties whose name starts with `transform` or `transition` get
      vendor-prefixed copies. */
  predicate Prefixable(prop: string)
  {
    StartsWith(prop, "transform") || StartsWith(prop, "transition")
  }

  /** The key of the copy for prefix number `j`, such as `webkit-transform`. */
  function Prefixed(j: nat, prop: string): string
    requires j < |Prefixes|
  {
    Prefixes[j] + "-" + prop
  }

  /** The assignments the loop body makes for one own property, in order. */
  function Expand(prop: string, value: string): (ws: seq<(string, string)>)
    ensures forall i :: 0 <= i < |ws| ==> ws[i].1 == value
  {
    [(prop, value)] +
    (if Prefixable(prop) then seq(|Prefixes|, j requires 0 <= j < |Prefixes| => (Prefixed(j, prop), value)) else [])
  }

  /** All assignments for a style object, given as its own properties in
      enumeration order. */
  function Writes(style: seq<(string, string)>): seq<(string, string)>
  {
    if style == [] then [] else Writes(style[..|style| - 1]) + Expand(style[|style| - 1].0, style[|style| - 1].1)
  }

  /** The value the last assignment to `key` stored, if any. */
  function LastWrite(ws: seq<(string, string)>, key: string): (r: Option<string>)
    ensures r.Some? <==> exists i :: 0 <= i < |ws| && ws[i].0 == key
    ensures r.Some? ==> exists i :: 0 <= i < |ws| && ws[i] == (key, r.value)
  {
    if ws == [] then None
    else if ws[|ws| - 1].0 == key then Some(ws[|ws| - 1].1)
    else LastWrite(ws[..|ws| - 1], key)
  }

  /** `result` holds, for each key, what the last assignment to it stored. */
  ghost predicate Reflects(result: map<string, string>, ws: seq<(string, string)>)
  {
    forall k :: (k in result <==> LastWrite(ws, k).Some?) && (k in result ==> result[k] == LastWrite(ws, k).value)
  }

  lemma ReflectsStep(result: map<string, string>, ws: seq<(string, string)>, key: string, value: string)
    requires Reflects(result, ws)
    ensures Reflects(result[key := value], ws + [(key, value)])
  {
    var next := ws + [(key, value)];
    assert next[..|next| - 1] == ws;
  }

  /** `_addPrefix(style)`: copies every own property and adds the four
      prefixed copies of the `transform*` and `transition*` ones; where two
      assignments hit the same key, the later one wins. */
  method AddPrefix(style: seq<(string, string)>) returns (result: map<string, string>)
    ensures Reflects(result, Writes(style))
  {
    result := map[];
    for n := 0 to |style|
      invariant Reflects(result, Writes(style[..n]))
    {
      var (prop, value) := style[n];
      assert style[..n + 1][..n] == style[..n];
      ghost var done := Writes(style[..n]);
      ReflectsStep(result, done, prop, value);
      result := result[prop := value];
      if Prefixable(prop) {
        ghost var copies := seq(|Prefixes|, j requires 0 <= j < |Prefixes| => (Prefixed(j, prop), value));
        assert done + [(prop, value)] + copies[..0] == done + [(prop, value)];
        for j := 0 to |Prefixes|
          invariant Reflects(result, done + [(prop, value)] + copies[..j])
        {
          ReflectsStep(result, done + [(prop, value)] + copies[..j], Prefixed(j, prop), value);
          assert copies[..j + 1] == copies[..j] + [copies[j]];
          assert done + [(prop, value)] + copies[..j] + [copies[j]] == done + [(prop, value)] + copies[..j + 1];
          result := result[Prefixed(j, prop) := value];
        }
        assert copies[..|Prefixes|] == copies;
        assert done + [(prop, value)] + copies == done + Expand(prop, value);
      } else {
        assert done + [(prop, value)] == done + Expand(prop, value);
      }
    }
    assert style[..|style|] == style;
  }

  /** A name that itself starts with a vendor prefix and a dash. */
  predicate VendorNamed(prop: string)
  {
    exists j :: 0 <= j < |Prefixes| && StartsWith(prop, Prefixes[j] + "-")
  }

  /** Distinct property names, none of them vendor-named. */
  predicate PlainStyle(style: seq<(string, string)>)
  {
    (forall i, j :: 0 <= i < j < |style| ==> style[i].0 != style[j].0) &&
    (forall i :: 0 <= i < |style| ==> !VendorNamed(style[i].0))
  }

  /** The keys one property's assignments touch. */
  predicate Touches(prop: string, key: string)
  {
    key == prop || (Prefixable(prop) && exists j :: 0 <= j < |Prefixes| && key == Prefixed(j, prop))
  }

  /** Different prefixes give different copies, and one prefix gives different
      copies of different names: the first two characters tell the prefix apart. */
  lemma PrefixedInjective(i: nat, j: nat, p: string, q: string)
    requires i < |Prefixes| && j < |Prefixes|
    ensures Prefixed(i, p) == Prefixed(j, q) ==> i == j && p == q
  {
    var x, y := Prefixed(i, p), Prefixed(j, q);
    assert x[0] == Prefixes[i][0] && x[1] == (Prefixes[i] + "-")[1];
    assert y[0] == Prefixes[j][0] && y[1] == (Prefixes[j] + "-")[1];
    assert p == x[|Prefixes[i]| + 1..];
    assert q == y[|Prefixes[j]| + 1..];
  }

  /** Every copy is vendor-named. */
  lemma PrefixedIsVendorNamed(j: nat, p: string)
    requires j < |Prefixes|
    ensures VendorNamed(Prefixed(j, p))
  {
    assert StartsWith(Prefixed(j, p), Prefixes[j] + "-");
  }

  /** Two different names that are not vendor-named touch disjoint keys. */
  lemma TouchesDisjoint(p: string, q: string, key: string)
    requires p != q && !VendorNamed(p) && !VendorNamed(q)
    ensures !(Touches(p, key) && Touches(q, key))
  {
    forall j | 0 <= j < |Prefixes|
      ensures VendorNamed(Prefixed(j, p)) && VendorNamed(Prefixed(j, q))
    {
      PrefixedIsVendorNamed(j, p);
      PrefixedIsVendorNamed(j, q);
    }
    forall i, j | 0 <= i < |Prefixes| && 0 <= j < |Prefixes|
      ensures Prefixed(i, p) != Prefixed(j, q)
    {
      PrefixedInjective(i, j, p, q);
    }
  }

  lemma LastWriteAppend(a: seq<(string, string)>, b: seq<(string, string)>, key: string)
    ensures LastWrite(a + b, key) == if LastWrite(b, key).Some? then LastWrite(b, key) else LastWrite(a, key)
    decreases |b|
  {
    if b != [] {
      assert (a + b)[..|a + b| - 1] == a + b[..|b| - 1];
      LastWriteAppend(a, b[..|b| - 1], key);
    } else {
      assert a + b == a;
    }
  }

  lemma ExpandTouches(prop: string, value: string, key: string)
    ensures LastWrite(Expand(prop, value), key) == if Touches(prop, key) then Some(value) else None
  {
    var ws := Expand(prop, value);
    if Touches(prop, key) {
      if key != prop {
        var j :| 0 <= j < |Prefixes| && key == Prefixed(j, prop);
        assert ws[j + 1].0 == key;
      } else {
        assert ws[0].0 == key;
      }
    } else {
      forall i | 0 <= i < |ws| ensures ws[i].0 != key {
        if i > 0 {
          assert ws[i].0 == Prefixed(i - 1, prop);
        }
      }
    }
  }

  /** With distinct names and no vendor-named property, nothing is
      overwritten: each property keeps its value and each prefixed copy
      carries the value of the property it copies. */
  lemma {:induction false} AddPrefixKeeps(style: seq<(string, string)>)
    requires PlainStyle(style)
    ensures forall i, key :: 0 <= i < |style| && Touches(style[i].0, key) ==>
              LastWrite(Writes(style), key) == Some(style[i].1)
  {
    if style != [] {
      var init, p, v := style[..|style| - 1], style[|style| - 1].0, style[|style| - 1].1;
      assert PlainStyle(init);
      AddPrefixKeeps(init);
      forall i, key | 0 <= i < |style| && Touches(style[i].0, key)
        ensures LastWrite(Writes(style), key) == Some(style[i].1)
      {
        LastWriteAppend(Writes(init), Expand(p, v), key);
        ExpandTouches(p, v, key);
        if i < |style| - 1 {
          TouchesDisjoint(style[i].0, p, key);
        }
      }
    }
  }

  /** When a property is vendor-named, a later unprefixed property overwrites
      it: `{'webkit-transform': a, transform: b}` ends with both keys at `b`. */
  lemma LaterCopyOverwrites(a: string, b: string)
    ensures LastWrite(Writes([("webkit-transform", a), ("transform", b)]), "webkit-transform") == Some(b)
  {
    var style := [("webkit-transform", a), ("transform", b)];
    assert style[..1] == [("webkit-transform", a)];
    assert [("webkit-transform", a)][..0] == [];
    assert Prefixable("transform");
    LastWriteAppend(Writes(style[..1]), Expand("transform", b), "webkit-transform");
    ExpandTouches("transform", b, "webkit-transform");
    assert Prefixed(0, "transform") == "webkit-transform";
  }

  // ---------------------------------------------------------------------
  // formatDate
  // ---------------------------------------------------------------------

  /** `pub.formatDate(date, format)` with the date's local components given:
      the day of the month, the month index (0 to 11), the full year and the
      time of day; the format defaults to `dd.MM.yyyy`. Each token is replaced at its first occurrence only, in
      the order `dd`, `MM`, `yyyy`, `HH`, `mm`, `ss`; the year is not padded. */
  function FormatDate(day: nat, monthIndex: nat, year: int, hours: nat, minutes: nat, seconds: nat,
                      format: string := "dd.MM.yyyy"): string
  {
    var s1 := ReplaceFirst(format, "dd", Two(day));
    var s2 := ReplaceFirst(s1, "MM", Two(monthIndex + 1));
    var s3 := ReplaceFirst(s2, "yyyy", IntToString(year));
    var s4 := ReplaceFirst(s3, "HH", Two(hours));
    var s5 := ReplaceFirst(s4, "mm", Two(minutes));
    ReplaceFirst(s5, "ss", Two(seconds))
  }

  predicate NoChar(s: string, c: char)
  {
    forall i :: 0 <= i < |s| ==> s[i] != c
  }

  /** When nothing before an occurrence of `pat` starts it, that occurrence
      is the first and is the one replaced. */
  lemma ReplaceAfter(a: string, pat: string, b: string, rep: string)
    requires pat != [] && NoChar(a, pat[0])
    ensures ReplaceFirst(a + pat + b, pat, rep) == a + rep + b
  {
    var s := a + pat + b;
    assert s[|a|..|a| + |pat|] == pat;
    assert InfixAt(pat, s, |a|);
    forall k | 0 <= k < |a| ensures !InfixAt(pat, s, k) {
      StartsAt(pat, s, k);
    }
    assert s[..|a|] == a;
    assert s[|a| + |pat|..] == b;
  }

  /** A string without the first character of `pat` is left alone. */
  lemma ReplaceAbsent(s: string, pat: string, rep: string)
    requires pat != [] && NoChar(s, pat[0])
    ensures ReplaceFirst(s, pat, rep) == s
  {
    forall k ensures !InfixAt(pat, s, k) {
      StartsAt(pat, s, k);
    }
  }

  /** An occurrence begins with the pattern's first character. */
  lemma StartsAt(pat: string, s: string, k: int)
    requires pat != []
    ensures InfixAt(pat, s, k) ==> s[k] == pat[0]
  {
    if 0 <= k && k + |pat| <= |s| {
      assert s[k..k + |pat|][0] == s[k];
    }
  }

  /** A rendered number holds only digits and possibly a minus sign. */
  predicate Numeric(s: string)
  {
    forall i :: 0 <= i < |s| ==> IsDigit(s[i]) || s[i] == '-'
  }

  lemma TwoNumeric(n: nat)
    ensures Numeric(Two(n))
  {
    var s := NatToString(n);
    if |s| < 2 {
      assert Two(n) == "0" + s;
    }
  }

  /** The text between and around the tokens once the date part is in place:
      digits, minus signs and the separators of the two formats. */
  predicate DateText(s: string)
  {
    forall i :: 0 <= i < |s| ==> IsDigit(s[i]) || s[i] == '-' || s[i] == '.' || s[i] == ' ' || s[i] == ':'
  }

  lemma DayStep(d: string)
    ensures ReplaceFirst("dd.MM.yyyy", "dd", d) == d + ".MM.yyyy"
  {
    ReplaceAfter([], "dd", ".MM.yyyy", d);
    assert [] + "dd" + ".MM.yyyy" == "dd.MM.yyyy";
  }

  lemma MonthStep(d: string, m: string)
    requires Numeric(d)
    ensures ReplaceFirst(d + ".MM.yyyy", "MM", m) == d + "." + m + ".yyyy"
  {
    ReplaceAfter(d + ".", "MM", ".yyyy", m);
    assert d + "." + "MM" + ".yyyy" == d + ".MM.yyyy";
  }

  lemma YearStep(d: string, m: string, y: string)
    requires Numeric(d) && Numeric(m)
    ensures ReplaceFirst(d + "." + m + ".yyyy", "yyyy", y) == d + "." + m + "." + y
  {
    ReplaceAfter(d + "." + m + ".", "yyyy", [], y);
    assert d + "." + m + "." + "yyyy" + [] == d + "." + m + ".yyyy";
    assert d + "." + m + "." + y + [] == d + "." + m + "." + y;
  }

  /** A rendered date holds none of the letters of the time tokens. */
  lemma RenderedDate(d: string, m: string, y: string)
    requires Numeric(d) && Numeric(m) && Numeric(y)
    ensures TimeFree(d + "." + m + "." + y)
  {
    assert DateText(d + "." + m + "." + y);
  }

  /** A string without the letters `H`, `m` and `s`. */
  predicate TimeFree(s: string)
  {
    NoChar(s, 'H') && NoChar(s, 'm') && NoChar(s, 's')
  }

  /** The time tokens are absent from a rendered date, so their replacements
      change nothing. */
  lemma TimeTokensAbsent(s: string, h: string, mi: string, sc: string)
    requires TimeFree(s)
    ensures ReplaceFirst(ReplaceFirst(ReplaceFirst(s, "HH", h), "mm", mi), "ss", sc) == s
  {
    ReplaceAbsent(s, "HH", h);
    ReplaceAbsent(s, "mm", mi);
    ReplaceAbsent(s, "ss", sc);
  }

  /** The default format `dd.MM.yyyy` renders day, month and year joined by dots. */
  lemma DefaultFormat(day: nat, monthIndex: nat, year: int, hours: nat, minutes: nat, seconds: nat)
    ensures FormatDate(day, monthIndex, year, hours, minutes, seconds) ==
              Two(day) + "." + Two(monthIndex + 1) + "." + IntToString(year)
  {
    var d, m, y := Two(day), Two(monthIndex + 1), IntToString(year);
    TwoNumeric(day);
    TwoNumeric(monthIndex + 1);
    assert Numeric(y);
    DayStep(d);
    MonthStep(d, m);
    YearStep(d, m, y);
    RenderedDate(d, m, y);
    TimeTokensAbsent(d + "." + m + "." + y, Two(hours), Two(minutes), Two(seconds));
  }

  lemma FirstDayOnly(d: string)
    ensures ReplaceFirst("dd dd", "dd", d) == d + " dd"
  {
    ReplaceAfter([], "dd", " dd", d);
    assert [] + "dd" + " dd" == "dd dd";
  }

  lemma OtherTokensAbsent(s: string, m: string, y: string, h: string, mi: string, sc: string)
    requires NoChar(s, 'M') && NoChar(s, 'y') && TimeFree(s)
    ensures ReplaceFirst(ReplaceFirst(ReplaceFirst(ReplaceFirst(ReplaceFirst(s, "MM", m), "yyyy", y), "HH", h), "mm", mi), "ss", sc) == s
  {
    ReplaceAbsent(s, "MM", m);
    ReplaceAbsent(s, "yyyy", y);
    TimeTokensAbsent(s, h, mi, sc);
  }

  /** Only the first occurrence of a token is replaced: `dd dd` renders the
      day once and keeps the second `dd` as it is. */
  lemma RepeatedToken(day: nat, monthIndex: nat, year: int, hours: nat, minutes: nat, seconds: nat)
    ensures FormatDate(day, monthIndex, year, hours, minutes, seconds, "dd dd") == Two(day) + " dd"
  {
    var d := Two(day);
    TwoNumeric(day);
    FirstDayOnly(d);
    var s := d + " dd";
    assert NoChar(s, 'M') && NoChar(s, 'y') && TimeFree(s);
    OtherTokensAbsent(s, Two(monthIndex + 1), IntToString(year), Two(hours), Two(minutes), Two(seconds));
  }

  // ---------------------------------------------------------------------
  // truncate, capitalize, toggle
  // ---------------------------------------------------------------------

  /** `pub.truncate(str, maxLength, suffix)`: a string longer than
      `maxLength` is cut to its first `maxLength` characters (none when
      `maxLength` is negative, as `substring` clamps) and gets the suffix. */
  function Truncate(s: string, maxLength: int, suffix: string := "..."): (r: string)
    ensures |s| <= maxLength ==> r == s
    ensures |s| > maxLength ==> |r| == (if maxLength < 0 then 0 else maxLength) + |suffix|
    ensures |s| > maxLength ==> r[..|r| - |suffix|] == s[..|r| - |suffix|] && r[|r| - |suffix|..] == suffix
  {
    if |s| > maxLength then s[..if maxLength < 0 then 0 else maxLength] + suffix else s
  }

  /** Truncating a truncated string changes nothing. */
  lemma TruncateIdempotent(s: string, maxLength: int, suffix: string)
    ensures Truncate(Truncate(s, maxLength, suffix), maxLength, suffix) == Truncate(s, maxLength, suffix)
  {
    var t := Truncate(s, maxLength, suffix);
    if |s| > maxLength && |t| > maxLength {
      var m := if maxLength < 0 then 0 else maxLength;
      assert t[..m] == s[..m];
    }
  }

  /** `pub.capitalize(str)`: the first character upper-cased, the rest lower-cased. */
  function Capitalize(s: string): (r: string)
    ensures |r| == |s|
    ensures s != [] ==> r[0] == UpperChar(s[0])
    ensures forall i :: 1 <= i < |s| ==> r[i] == LowerChar(s[i])
  {
    Upper(s[..if s == [] then 0 else 1]) + Lower(s[if s == [] then 0 else 1..])
  }

  /** Capitalising twice is capitalising once. */
  lemma CapitalizeIdempotent(s: string)
    ensures Capitalize(Capitalize(s)) == Capitalize(s)
  {
    var r := Capitalize(s);
    var rr := Capitalize(r);
    assert forall i :: 0 <= i < |r| ==> rr[i] == r[i];
  }

  /** One element's new `display` in `pub.toggle(selector, display)`. */
  function ToggleDisplay(current: string, display: string): (r: string)
    ensures r == "none" <==> current != "none" || display == "none"
    ensures current == "none" ==> r == display
  {
    if current == "none" then display else "none"
  }

  /** With a display other than `none`, toggling twice leaves a hidden
      element hidden and gives a shown element that display. */
  lemma ToggleTwice(current: string, display: string)
    requires display != "none"
    ensures ToggleDisplay(ToggleDisplay(current, display), display) == (if current == "none" then "none" else display)
  {
  }

  /** `pub.toggle(selector, display)` over the selected elements' `display` values. */
  method Toggle(displays: array<string>, display: string)
    modifies displays
    ensures forall i :: 0 <= i < displays.Length ==> displays[i] == ToggleDisplay(old(displays[i]), display)
  {
    for i := 0 to displays.Length
      invariant forall k :: 0 <= k < i ==> displays[k] == ToggleDisplay(old(displays[k]), display)
      invariant forall k :: i <= k < displays.Length ==> displays[k] == old(displays[k])
    {
      displays[i] := if displays[i] == "none" then display else "none";
    }
  }
}
