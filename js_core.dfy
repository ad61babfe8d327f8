/** Values, objects and index conventions of the JavaScript runtime that the
    toolkit's helpers rely on, reduced to what the model needs. */
module JsCore {

  datatype Option<T> = None | Some(value: T)

  /** The JavaScript values that the data helpers read out of plain objects,
      compare with `===` and print with `String(...)`. Numbers are integers. */
  datatype Value = Undefined | Null | Bool(b: bool) | Num(n: int) | Str(s: string)

  /** A plain object: own enumerable properties and their values. */
  type Obj = map<string, Value>

  /** `obj[key]`: a missing property reads as `undefined`. */
  function Get(o: Obj, key: string): (v: Value)
    ensures key in o ==> v == o[key]
    ensures key !in o ==> v == Undefined
  {
    if key in o then o[key] else Undefined
  }

  /** JavaScript truthiness of a value. */
  predicate Truthy(v: Value)
  {
    match v
    case Undefined => false
    case Null => false
    case Bool(b) => b
    case Num(n) => n != 0
    case Str(s) => s != ""
  }

  /** How `Array.prototype.slice` turns one argument into a position:
      a negative argument counts from the end, and the result is clamped to [0, len]. */
  function SliceIndex(i: int, len: nat): (r: nat)
    ensures r <= len
    ensures 0 <= i <= len ==> r == i
    ensures i > len ==> r == len
    ensures i < 0 && len + i >= 0 ==> r == len + i
    ensures len + i < 0 ==> r == 0
  {
    if i < 0 then (if len + i < 0 then 0 else len + i)
    else if i > len then len
    else i
  }

  /** `s.slice(start, end)`. */
  function Slice<T>(s: seq<T>, start: int, end: int): (r: seq<T>)
    ensures |r| <= |s|
    ensures SliceIndex(start, |s|) <= SliceIndex(end, |s|) ==>
              r == s[SliceIndex(start, |s|)..SliceIndex(end, |s|)]
    ensures SliceIndex(start, |s|) >= SliceIndex(end, |s|) ==> r == []
  {
    var a, b := SliceIndex(start, |s|), SliceIndex(end, |s|);
    if a < b then s[a..b] else []
  }

  /** A suffix split in two at `j`. */
  lemma SuffixSplit<T>(s: seq<T>, i: int, j: int)
    requires 0 <= i <= j <= |s|
    ensures s[i..] == s[i..j] + s[j..]
  {
  }

  /** One more multiple: `(n + 1) * m == n * m + m`. */
  lemma MulSucc(n: int, m: int)
    ensures (n + 1) * m == n * m + m
  {
  }

  // ---------------------------------------------------------------------
  // Decimal printing of integers, as `String(n)` / `n.toString()` does it.
  // ---------------------------------------------------------------------

  predicate IsDigit(c: char) { '0' <= c <= '9' }

  function DigitChar(d: nat): (c: char)
    requires d < 10
    ensures IsDigit(c)
  {
    "0123456789"[d]
  }

  function DigitValue(c: char): (d: nat)
    requires IsDigit(c)
    ensures d < 10
  {
    (c as int - '0' as int) as nat
  }

  lemma DigitRoundTrip(d: nat)
    requires d < 10
    ensures DigitValue(DigitChar(d)) == d
  {
  }

  /** The decimal digits of `n`, most significant first, without leading zeros. */
  function NatToString(n: nat): (s: string)
    ensures |s| >= 1
    ensures forall i :: 0 <= i < |s| ==> IsDigit(s[i])
    ensures n < 10 <==> |s| == 1
    decreases n
  {
    if n < 10 then [DigitChar(n)] else NatToString(n / 10) + [DigitChar(n % 10)]
  }

  function IntToString(i: int): (s: string)
    ensures |s| >= 1
    ensures forall k :: 0 <= k < |s| ==> IsDigit(s[k]) || s[k] == '-'
  {
    if i < 0 then "-" + NatToString(-i) else NatToString(i)
  }

  /** `String(v)`: the text a value prints as, which is also the property
      name it becomes when used as an object key. */
  function Stringify(v: Value): (s: string)
    ensures v.Str? ==> s == v.s
    ensures v.Num? ==> |s| >= 1 && (v.n >= 0 ==> s == NatToString(v.n))
  {
    match v
    case Undefined => "undefined"
    case Null => "null"
    case Bool(b) => if b then "true" else "false"
    case Num(n) => IntToString(n)
    case Str(s) => s
  }

  /** Reads back a string of decimal digits. */
  function ParseDecimal(s: string): (n: nat)
    requires forall i :: 0 <= i < |s| ==> IsDigit(s[i])
  {
    if s == [] then 0 else 10 * ParseDecimal(s[..|s| - 1]) + DigitValue(s[|s| - 1])
  }

  lemma {:induction false} ParseNatToString(n: nat)
    ensures ParseDecimal(NatToString(n)) == n
    decreases n
  {
    var s := NatToString(n);
    if n < 10 {
      DigitRoundTrip(n);
    } else {
      ParseNatToString(n / 10);
      DigitRoundTrip(n % 10);
      assert s[..|s| - 1] == NatToString(n / 10);
    }
  }

  /** Leading zeros do not change the value that is read back. */
  lemma ParseLeadingZero(s: string)
    requires forall i :: 0 <= i < |s| ==> IsDigit(s[i])
    ensures ParseDecimal("0" + s) == ParseDecimal(s)
    decreases |s|
  {
    if s != [] {
      assert ("0" + s)[..|"0" + s| - 1] == "0" + s[..|s| - 1];
      ParseLeadingZero(s[..|s| - 1]);
    }
  }

  /** `str.padStart(2, '0')`. */
  function PadStart2(s: string): (r: string)
    ensures |r| >= 2 && |r| >= |s|
    ensures |s| >= 2 ==> r == s
    ensures |s| < 2 ==> r == seq(2 - |s|, _ => '0') + s
  {
    if |s| == 0 then "00" else if |s| == 1 then "0" + s else s
  }

  /** `String(n).padStart(2, '0')`. */
  function Two(n: nat): (s: string)
    ensures |s| >= 2
    ensures n < 100 ==> |s| == 2
  {
    var d := NatToString(n);
    assert n >= 10 ==> d == NatToString(n / 10) + [DigitChar(n % 10)];
    PadStart2(d)
  }

  /** `String(n).padStart(2, '0')` for a non-negative integer, read back. */
  lemma ParsePadded(n: nat)
    ensures var r := Two(n);
            (forall i :: 0 <= i < |r| ==> IsDigit(r[i])) && ParseDecimal(r) == n
  {
    assert Two(n) == PadStart2(NatToString(n));
    ParseNatToString(n);
    var s := NatToString(n);
    if |s| == 1 {
      ParseLeadingZero(s);
    }
  }
}
