/** The value tree `encoding/json` decodes into an `interface{}`, and the text
    Go's `%v` and `%T` verbs print for it. */
module Json {
  import opened Wrappers
  import Text
  import Numbers

  /** A decoded JSON value. Objects are Go maps (no key order); numbers are kept as
      integers. */
  datatype Json =
    | JNull
    | JBool(b: bool)
    | JNum(n: int)
    | JStr(s: string)
    | JArr(items: seq<Json>)
    | JObj(fields: map<string, Json>)

  /** The outcome of `json.Unmarshal` on a response text. */
  datatype Decoded = Valid(value: Json) | Invalid(reason: string)

  /** `%T` of a decoded value. */
  function TypeName(j: Json): string {
    match j
    case JNull => "<nil>"
    case JBool(_) => "bool"
    case JNum(_) => "float64"
    case JStr(_) => "string"
    case JArr(_) => "[]interface {}"
    case JObj(_) => "map[string]interface {}"
  }

  /** Go's `<` on strings: lexicographic by code point (the same order as UTF-8 bytes). */
  predicate StrLess(a: string, b: string) {
    if |a| == 0 then |b| > 0
    else if |b| == 0 then false
    else if a[0] != b[0] then a[0] < b[0]
    else StrLess(a[1..], b[1..])
  }

  lemma {:induction false} StrLessAsymmetric(a: string, b: string)
    ensures StrLess(a, b) ==> !StrLess(b, a)
    decreases |a|
  {
    if |a| > 0 && |b| > 0 && a[0] == b[0] {
      StrLessAsymmetric(a[1..], b[1..]);
    }
  }

  lemma {:induction false} StrLessTransitive(a: string, b: string, c: string)
    requires StrLess(a, b) && StrLess(b, c)
    ensures StrLess(a, c)
    decreases |a|
  {
    if |a| > 0 && |b| > 0 && |c| > 0 && a[0] == b[0] && b[0] == c[0] {
      StrLessTransitive(a[1..], b[1..], c[1..]);
    }
  }

  lemma {:induction false} StrLessTotal(a: string, b: string)
    requires a != b
    ensures StrLess(a, b) || StrLess(b, a)
    decreases |a|
  {
    if |a| > 0 && |b| > 0 && a[0] == b[0] {
      assert a == [a[0]] + a[1..] && b == [b[0]] + b[1..];
      StrLessTotal(a[1..], b[1..]);
    }
  }

  predicate IsLeast(m: string, ks: set<string>) {
    m in ks && forall k :: k in ks && k != m ==> StrLess(m, k)
  }

  lemma {:induction false} LeastExists(ks: set<string>)
    requires ks != {}
    ensures exists m :: IsLeast(m, ks)
    decreases ks
  {
    var x :| x in ks;
    if ks - {x} == {} {
      assert ks == {x};
      assert IsLeast(x, ks);
    } else {
      LeastExists(ks - {x});
      var m :| IsLeast(m, ks - {x});
      StrLessTotal(m, x);
      if StrLess(m, x) {
        assert IsLeast(m, ks);
      } else {
        forall k | k in ks && k != x ensures StrLess(x, k) {
          if k != m { StrLessTransitive(x, m, k); }
        }
        assert IsLeast(x, ks);
      }
    }
  }

  lemma LeastUnique(ks: set<string>)
    ensures forall m, m' :: IsLeast(m, ks) && IsLeast(m', ks) ==> m == m'
  {
    forall m, m' | IsLeast(m, ks) && IsLeast(m', ks) ensures m == m' {
      if m != m' {
        StrLessAsymmetric(m, m');
      }
    }
  }

  /** The keys of a map in the order Go's `fmt` prints them: ascending. */
  function SortedKeys(ks: set<string>): (r: seq<string>)
    ensures |r| == |ks|
    ensures forall i :: 0 <= i < |r| ==> r[i] in ks
    ensures forall k :: k in ks ==> k in r
    ensures forall i, j :: 0 <= i < j < |r| ==> StrLess(r[i], r[j])
    decreases ks
  {
    if ks == {} then []
    else
      LeastExists(ks);
      LeastUnique(ks);
      var m :| IsLeast(m, ks);
      var rest := SortedKeys(ks - {m});
      SortedCons(m, ks, rest);
      [m] + rest
  }

  /** Putting the least key in front of the sorted others sorts them all. */
  lemma SortedCons(m: string, ks: set<string>, rest: seq<string>)
    requires IsLeast(m, ks) && |rest| == |ks - {m}|
    requires forall i :: 0 <= i < |rest| ==> rest[i] in ks - {m}
    requires forall k :: k in ks - {m} ==> k in rest
    requires forall i, j :: 0 <= i < j < |rest| ==> StrLess(rest[i], rest[j])
    ensures |[m] + rest| == |ks|
    ensures forall i :: 0 <= i < |[m] + rest| ==> ([m] + rest)[i] in ks
    ensures forall k :: k in ks ==> k in [m] + rest
    ensures forall i, j :: 0 <= i < j < |[m] + rest| ==> StrLess(([m] + rest)[i], ([m] + rest)[j])
  {
    var r := [m] + rest;
    assert forall i :: 1 <= i < |r| ==> r[i] == rest[i - 1];
    assert forall j :: 1 <= j < |r| ==> r[j] in ks - {m};
  }

  /** Digits of `n` with trailing zeros removed (at least one digit remains). */
  function StripTrailingZeros(d: string): (r: string)
    requires |d| > 0 && d[0] != '0'
    ensures 0 < |r| <= |d| && r == d[..|r|] && r[|r| - 1] != '0'
  {
    if d[|d| - 1] == '0' then StripTrailingZeros(d[..|d| - 1]) else d
  }

  /** `%v` of a float64 holding the integer `n`: plain digits while the decimal exponent
      is below 6, otherwise the shortest `%e` form such as `1.234567e+06`. Exact for
      integers of magnitude up to 2^53, which float64 holds without rounding. */
  function FormatNumber(n: int): string {
    var m: nat := if n < 0 then -n else n;
    var sign := if n < 0 then "-" else "";
    var digits := Numbers.NatToString(m);
    if |digits| <= 6 then sign + digits
    else
      var exp := |digits| - 1;
      var mant := StripTrailingZeros(digits);
      sign + [mant[0]] + (if |mant| > 1 then "." + mant[1..] else "") + "e+"
        + (if exp < 10 then "0" + Numbers.NatToString(exp) else Numbers.NatToString(exp))
  }

  function Pow10(k: nat): nat {
    if k == 0 then 1 else 10 * Pow10(k - 1)
  }

  /** The decimal text of `m` has at most `k` digits exactly when `m < 10^k`. */
  lemma {:induction false} NatToStringLength(m: nat, k: nat)
    requires k >= 1
    ensures |Numbers.NatToString(m)| <= k <==> m < Pow10(k)
  {
    if m >= 10 && k >= 2 {
      NatToStringLength(m / 10, k - 1);
    } else if m >= 10 {
      assert Pow10(1) == 10;
    } else {
      assert Pow10(k) >= 10 by { Pow10AtLeast(k); }
    }
  }

  lemma {:induction false} Pow10AtLeast(k: nat)
    requires k >= 1
    ensures Pow10(k) >= 10
  {
    if k > 1 { Pow10AtLeast(k - 1); }
  }

  /** Numbers below a million in magnitude print exactly as `strconv.Itoa` writes them. */
  lemma SmallNumberIsDecimal(n: int)
    requires -1_000_000 < n < 1_000_000
    ensures FormatNumber(n) == Numbers.IntToString(n)
  {
    NatToStringLength(if n < 0 then -n else n, 6);
  }

  /** `%v` of a decoded value: raw text for strings, `true`/`false`, Go's float64 text
      for numbers, `<nil>` for null, `[a b]` for arrays and `map[k:v ...]` with keys in
      ascending order for objects. */
  function Render(j: Json): string
    decreases j
  {
    match j
    case JNull => "<nil>"
    case JBool(b) => if b then "true" else "false"
    case JNum(n) => FormatNumber(n)
    case JStr(s) => s
    case JArr(items) =>
      "[" + Text.Join(seq(|items|, i requires 0 <= i < |items| => Render(items[i])), " ") + "]"
    case JObj(fields) =>
      var keys := SortedKeys(fields.Keys);
      "map[" + Text.Join(seq(|keys|, i requires 0 <= i < |keys| => keys[i] + ":" + Render(fields[keys[i]])), " ") + "]"
  }
}
