/** Form helpers of the core object: the key grouping of `serializeForm`
    and the rule cascade of `validateForm`. The form is given as data: its
    entries in document order for serialisation, and the value of the first
    control of each name for validation. */
module SvxForms {
  import opened JsCore
  import opened JsText

  // ---------------------------------------------------------------------
  // serializeForm
  // ---------------------------------------------------------------------

  /** A key's entry in the result: a single string, or an array of strings. */
  datatype FieldValue = One(s: string) | Many(vs: seq<string>)

  /** `if (result[key])`: an array is truthy, a string unless it is empty. */
  predicate Occupied(v: FieldValue)
  {
    v.Many? || v.s != ""
  }

  /** The values given for `key`, in entry order. */
  function ValuesOf(entries: seq<(string, string)>, key: string): (vs: seq<string>)
    ensures |vs| <= |entries|
  {
    if entries == [] then []
    else ValuesOf(entries[..|entries| - 1], key)
         + (if entries[|entries| - 1].0 == key then [entries[|entries| - 1].1] else [])
  }

  /** How many values at the front are empty strings. */
  function LeadingEmpty(vs: seq<string>): (j: nat)
    ensures j <= |vs|
    ensures forall i :: 0 <= i < j ==> vs[i] == ""
    ensures j < |vs| ==> vs[j] != ""
  {
    if vs == [] || vs[0] != "" then 0 else 1 + LeadingEmpty(vs[1..])
  }

  /** What the grouping keeps for one key: empty values before the first
      non-empty one are overwritten, so the result is the values from the
      first non-empty one on (an array when there are two or more), or the
      last value when no non-empty value is followed by another. */
  function Grouped(vs: seq<string>): FieldValue
    requires vs != []
  {
    var j := LeadingEmpty(vs);
    if j >= |vs| - 1 then One(vs[|vs| - 1]) else Many(vs[j..])
  }

  /** One iteration of the loop on a key already in the result. */
  function Add(prev: FieldValue, v: string): FieldValue
  {
    if !Occupied(prev) then One(v)
    else if prev.One? then Many([prev.s, v])
    else Many(prev.vs + [v])
  }

  lemma LeadingEmptyAppend(vs: seq<string>, v: string)
    ensures LeadingEmpty(vs + [v]) ==
              if LeadingEmpty(vs) < |vs| then LeadingEmpty(vs) else |vs| + (if v == "" then 1 else 0)
  {
    var j, j2 := LeadingEmpty(vs), LeadingEmpty(vs + [v]);
    var w := vs + [v];
    if j < |vs| {
      assert w[j] != "";
      assert j2 <= j;
      assert j2 >= j;
    } else if v == "" {
      assert forall i :: 0 <= i < |w| ==> w[i] == "";
    } else {
      assert w[|vs|] != "";
    }
  }

  /** Adding a value to a key's grouped entry groups the longer list. */
  lemma GroupedStep(vs: seq<string>, v: string)
    requires vs != []
    ensures Grouped(vs + [v]) == Add(Grouped(vs), v)
  {
    LeadingEmptyAppend(vs, v);
    var j := LeadingEmpty(vs);
    var w := vs + [v];
    if j < |vs| - 1 {
      assert w[j..] == vs[j..] + [v];
    } else if j == |vs| - 1 {
      assert w[j..] == [vs[j], v];
    }
  }

  /** When the first value of a key is not empty, every value is kept, in order. */
  lemma GroupedKeepsAll(vs: seq<string>)
    requires vs != [] && vs[0] != ""
    ensures Grouped(vs) == if |vs| == 1 then One(vs[0]) else Many(vs)
  {
    assert vs[0..] == vs;
  }

  /** The invariant of the serialisation loop after the entries `done`. */
  ghost predicate GroupsAll(result: map<string, FieldValue>, done: seq<(string, string)>)
  {
    (forall k :: k in result <==> ValuesOf(done, k) != []) &&
    (forall k :: k in result ==> result[k] == Grouped(ValuesOf(done, k)))
  }

  /** One entry more keeps the invariant. */
  lemma GroupsAllStep(result: map<string, FieldValue>, done: seq<(string, string)>, key: string, value: string)
    requires GroupsAll(result, done)
    ensures GroupsAll(result[key := if key in result then Add(result[key], value) else One(value)], done + [(key, value)])
  {
    var next := done + [(key, value)];
    var r := result[key := if key in result then Add(result[key], value) else One(value)];
    forall k | k != key
      ensures ValuesOf(next, k) == ValuesOf(done, k)
      ensures k in r <==> k in result
      ensures k in r ==> r[k] == result[k]
    {
      ValuesOfSnoc(done, key, value, k);
    }
    ValuesOfSnoc(done, key, value, key);
    if key in result {
      GroupedStep(ValuesOf(done, key), value);
    }
  }

  lemma ValuesOfSnoc(done: seq<(string, string)>, key: string, value: string, k: string)
    ensures ValuesOf(done + [(key, value)], k) == ValuesOf(done, k) + (if k == key then [value] else [])
  {
    var next := done + [(key, value)];
    assert next[..|next| - 1] == done;
  }

  /** `pub.serializeForm`: the loop over the form's entries. */
  method SerializeForm(entries: seq<(string, string)>) returns (result: map<string, FieldValue>)
    ensures forall k :: k in result <==> ValuesOf(entries, k) != []
    ensures forall k :: k in result ==> result[k] == Grouped(ValuesOf(entries, k))
  {
    result := map[];
    for n := 0 to |entries|
      invariant GroupsAll(result, entries[..n])
    {
      var (key, value) := entries[n];
      GroupsAllStep(result, entries[..n], key, value);
      assert entries[..n + 1] == entries[..n] + [(key, value)];
      if key in result && Occupied(result[key]) {
        var prev := result[key];
        result := result[key := if prev.One? then Many([prev.s, value]) else Many(prev.vs + [value])];
      } else {
        result := result[key := One(value)];
      }
    }
    assert entries[..|entries|] == entries;
  }

  // ---------------------------------------------------------------------
  // validateForm
  // ---------------------------------------------------------------------

  /** A field's rules: `required`, `min` and `max` lengths (0 is falsy and
      switches the check off), `type: 'email'`, and `match`, the name of a
      field to compare with (the empty string switches it off). */
  datatype FieldRules = FieldRules(required: bool, min: int, max: int, email: bool, matchField: string)

  /** The checks, in the order the cascade runs them. */
  datatype Check = Required | MinLength | MaxLength | Email | Match

  function Rank(c: Check): nat
  {
    match c
    case Required => 0
    case MinLength => 1
    case MaxLength => 2
    case Email => 3
    case Match => 4
  }

  /** Whether one check rejects the trimmed `value`, each judged on its own. */
  predicate Fails(c: Check, rules: FieldRules, value: string, form: map<string, string>)
  {
    match c
    case Required => rules.required && value == ""
    case MinLength => rules.min != 0 && |value| < rules.min
    case MaxLength => rules.max != 0 && |value| > rules.max
    case Email => rules.email && !IsEmail(value)
    case Match => rules.matchField != "" && rules.matchField in form && value != Trim(form[rules.matchField])
  }

  /** The cascade for one field: the first check that fails, if any. */
  function FirstFailure(rules: FieldRules, value: string, form: map<string, string>): (r: Option<Check>)
    ensures r.Some? ==> Fails(r.value, rules, value, form)
    ensures r.Some? ==> forall c :: Rank(c) < Rank(r.value) ==> !Fails(c, rules, value, form)
    ensures r.None? ==> forall c :: !Fails(c, rules, value, form)
  {
    if rules.required && value == "" then Some(Required)
    else if rules.min != 0 && |value| < rules.min then Some(MinLength)
    else if rules.max != 0 && |value| > rules.max then Some(MaxLength)
    else if rules.email && !IsEmail(value) then Some(Email)
    else if rules.matchField != "" && rules.matchField in form && value != Trim(form[rules.matchField]) then Some(Match)
    else None
  }

  /** The result object `{ isValid, errors }`. */
  datatype Validation = Validation(isValid: bool, errors: map<string, Check>)

  /** The failure recorded for rule entry `i`, when its field is in the form. */
  function FieldFailure(form: map<string, string>, rules: seq<(string, FieldRules)>, i: nat): Option<Check>
    requires i < |rules|
  {
    var name := rules[i].0;
    if name in form then FirstFailure(rules[i].1, Trim(form[name]), form) else None
  }

  /** `pub.validateForm`. Without a form the result is invalid with no
      errors; otherwise each field named in the rules and present in the form
      gets the first failing check as its error, absent fields are skipped,
      and the form is valid exactly when no field has an error. */
  method ValidateForm(form: Option<map<string, string>>, rules: seq<(string, FieldRules)>) returns (res: Validation)
    requires forall i, j :: 0 <= i < j < |rules| ==> rules[i].0 != rules[j].0
    ensures form.None? ==> res == Validation(false, map[])
    ensures form.Some? ==> (res.isValid <==> res.errors == map[])
    ensures form.Some? ==> res.errors.Keys <= set i | 0 <= i < |rules| :: rules[i].0
    ensures form.Some? ==> forall i :: 0 <= i < |rules| ==>
              (rules[i].0 in res.errors <==> FieldFailure(form.value, rules, i).Some?) &&
              (rules[i].0 in res.errors ==> res.errors[rules[i].0] == FieldFailure(form.value, rules, i).value)
  {
    if form.None? {
      return Validation(false, map[]);
    }
    var fields := form.value;
    var isValid := true;
    var errors: map<string, Check> := map[];
    for n := 0 to |rules|
      invariant isValid <==> errors == map[]
      invariant errors.Keys <= set i | 0 <= i < n :: rules[i].0
      invariant forall i :: 0 <= i < n ==>
                  (rules[i].0 in errors <==> FieldFailure(fields, rules, i).Some?) &&
                  (rules[i].0 in errors ==> errors[rules[i].0] == FieldFailure(fields, rules, i).value)
    {
      var (name, fieldRules) := rules[n];
      if name !in fields {
        continue;
      }
      var failure := FirstFailure(fieldRules, Trim(fields[name]), fields);
      if failure.Some? {
        isValid := false;
        errors := errors[name := failure.value];
      }
    }
    return Validation(isValid, errors);
  }

  // ---------------------------------------------------------------------
  // The e-mail pattern /^[^\s@]+@[^\s@]+\.[^\s@]+$/
  // ---------------------------------------------------------------------

  /** A recogniser for the pattern: no whitespace, one `@` with something
      before it, and a `.` after the `@` with at least one character on
      each side of it. */
  predicate IsEmail(s: string)
  {
    NoSpace(s) &&
    var a := IndexOf(s, "@");
    a >= 1 && !Includes(s[a + 1..], "@") &&
    var rest := s[a + 1..];
    |rest| >= 3 && Includes(rest[1..|rest| - 1], ".")
  }

  /** The pattern's language, position by position: `s` is `A@B.C` with `A`,
      `B` and `C` non-empty and free of whitespace and `@`, the `@` at `a`
      and the `.` at `d`. */
  predicate EmailAt(s: string, a: int, d: int)
  {
    NoSpace(s) && 0 < a && a + 1 < d && d + 1 < |s| && s[a] == '@' && s[d] == '.' &&
    forall i :: 0 <= i < |s| && s[i] == '@' ==> i == a
  }

  lemma CharInfix(c: char, s: string, k: int)
    ensures InfixAt([c], s, k) <==> 0 <= k < |s| && s[k] == c
  {
    if 0 <= k < |s| {
      assert s[k..k + 1] == [s[k]];
    }
  }

  /** The recogniser accepts exactly the strings of the pattern's language. */
  lemma IsEmailMeaning(s: string)
    ensures IsEmail(s) <==> exists a, d :: EmailAt(s, a, d)
  {
    if IsEmail(s) {
      var a := IndexOf(s, "@");
      var rest := s[a + 1..];
      var mid := rest[1..|rest| - 1];
      var j := IndexOf(mid, ".");
      CharInfix('.', mid, j);
      var d := a + 2 + j;
      assert s[d] == mid[j];
      CharInfix('@', s, a);
      forall i | 0 <= i < |s| && s[i] == '@' ensures i == a {
        CharInfix('@', s, i);
        if i > a {
          CharInfix('@', rest, i - a - 1);
        }
      }
      assert EmailAt(s, a, d);
    }
    if a, d :| EmailAt(s, a, d) {
      CharInfix('@', s, a);
      var r := IndexOf(s, "@");
      CharInfix('@', s, r);
      assert r == a;
      var rest := s[a + 1..];
      var k := IndexOf(rest, "@");
      CharInfix('@', rest, k);
      var mid := rest[1..|rest| - 1];
      CharInfix('.', mid, d - a - 2);
    }
  }
}
