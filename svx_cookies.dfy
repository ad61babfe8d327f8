/** `pub.getCookie(name)`: scans the `;`-separated entries of the cookie
    string for the first one that, trimmed, starts with `name=`. The cookie
    string is a parameter, and `decodeURIComponent` is a parameter that
    fails (throws a URIError) on malformed escapes. */
module SvxCookies {
  import opened JsCore
  import opened JsText

  datatype CookieResult = Missing | Found(value: string) | Malformed

  function Decoded(d: Option<string>): CookieResult
  {
    if d.Some? then Found(d.value) else Malformed
  }

  /** The trimmed entry starts with `name=`; `getCookie` tests this with
      `indexOf(nameEQ) === 0` (see `IndexOfZero`). */
  predicate Matches(entry: string, name: string)
  {
    StartsWith(Trim(entry), name + "=")
  }

  /** `s.indexOf(t) === 0` exactly when `s` starts with `t`. */
  lemma IndexOfZero(s: string, t: string)
    ensures IndexOf(s, t) == 0 <==> StartsWith(s, t)
  {
    if StartsWith(s, t) {
      assert InfixAt(t, s, 0);
    }
  }

  /** `i` is the first matching entry. */
  predicate FirstMatch(entries: seq<string>, name: string, i: int)
  {
    0 <= i < |entries| && Matches(entries[i], name) && NoneBefore(entries, name, i)
  }

  /** The value part of a matching entry: what follows `name=`. */
  function ValuePart(entry: string, name: string): string
  {
    var t := Trim(entry);
    if |name| + 1 <= |t| then t[|name| + 1..] else ""
  }

  /** No entry before `n` matches, checked one entry at a time as the loop
      of `getCookie` does. */
  predicate NoneBefore(entries: seq<string>, name: string, n: int)
    decreases n
  {
    n <= 0 || (NoneBefore(entries, name, n - 1) && (n - 1 >= |entries| || !Matches(entries[n - 1], name)))
  }

  /** `NoneBefore` says that none of the first `n` entries matches. */
  lemma {:induction false} NoneBeforeMeans(entries: seq<string>, name: string, n: int)
    ensures NoneBefore(entries, name, n) <==>
            forall j :: 0 <= j < n && j < |entries| ==> !Matches(entries[j], name)
    decreases n
  {
    if n > 0 {
      NoneBeforeMeans(entries, name, n - 1);
    }
  }

  method GetCookie(cookie: string, name: string, decode: string -> Option<string>) returns (r: CookieResult)
    ensures var entries := Split(cookie, ";");
            r.Missing? <==> NoneBefore(entries, name, |entries|)
    ensures var entries := Split(cookie, ";");
            !r.Missing? ==> exists i :: FirstMatch(entries, name, i) && r == Decoded(decode(ValuePart(entries[i], name)))
  {
    var nameEQ := name + "=";
    var cookies := Split(cookie, ";");
    for i := 0 to |cookies|
      invariant NoneBefore(cookies, name, i)
    {
      var c := Trim(cookies[i]);
      IndexOfZero(c, nameEQ);
      if IndexOf(c, nameEQ) == 0 {
        assert FirstMatch(cookies, name, i);
        NoneBeforeMeans(cookies, name, |cookies|);
        assert c[|nameEQ|..] == ValuePart(cookies[i], name);
        r := Decoded(decode(c[|nameEQ|..]));
        return;
      }
    }
    return Missing;
  }

  predicate NoEquals(s: string)
  {
    forall i :: 0 <= i < |s| ==> s[i] != '='
  }

  /** For an entry `key=value` (after trimming) and a name, neither of which
      contains `=`, the entry matches exactly when the key is the name; so
      the name `a` does not pick up the entry `ab=1`. */
  lemma MatchesOwnKey(entry: string, key: string, value: string, name: string)
    requires Trim(entry) == key + "=" + value
    requires NoEquals(key) && NoEquals(name)
    ensures Matches(entry, name) <==> key == name
    ensures Matches(entry, name) ==> ValuePart(entry, name) == value
  {
    var t := Trim(entry);
    IndexOfZero(t, name + "=");
    if StartsWith(t, name + "=") {
      var p := t[..|name| + 1];
      assert p[|name|] == '=';
      assert forall i :: 0 <= i < |name| ==> p[i] == name[i];
      assert t[|key|] == '=';
      assert forall i :: 0 <= i < |key| ==> t[i] != '=';
      assert forall i :: 0 <= i < |name| ==> t[i] != '=';
      assert |name| == |key|;
      assert key == t[..|key|] == name;
    }
    if key == name {
      assert t[..|name| + 1] == name + "=";
      assert t[|name| + 1..] == value;
    }
  }
}
