/** The slice of Go's `strings` and `strconv` packages the tool relies on,
    over `string` = `seq<char>` (one char per Unicode code point). */
module Text {
  import opened Wrappers

  /** Go's `unicode.IsSpace`: the Latin-1 spaces plus the Unicode White_Space set. */
  predicate IsSpace(c: char) {
    || c == ' ' || c == '\t' || c == '\n' || c == '\U{000B}' || c == '\U{000C}' || c == '\r'
    || c == '\U{0085}' || c == '\U{00A0}' || c == '\U{1680}'
    || ('\U{2000}' <= c <= '\U{200A}')
    || c == '\U{2028}' || c == '\U{2029}' || c == '\U{202F}' || c == '\U{205F}' || c == '\U{3000}'
  }

  predicate NoSpace(s: string) {
    forall i :: 0 <= i < |s| ==> !IsSpace(s[i])
  }

  predicate AllSpace(s: string) {
    forall i :: 0 <= i < |s| ==> IsSpace(s[i])
  }

  /** Number of leading white-space characters. */
  function LeadingSpace(s: string): (n: nat)
    ensures n <= |s|
    ensures AllSpace(s[..n])
    ensures n == |s| || !IsSpace(s[n])
  {
    if |s| > 0 && IsSpace(s[0]) then 1 + LeadingSpace(s[1..]) else 0
  }

  /** Number of trailing white-space characters. */
  function TrailingSpace(s: string): (n: nat)
    ensures n <= |s|
    ensures AllSpace(s[|s| - n..])
    ensures n == |s| || !IsSpace(s[|s| - n - 1])
  {
    if |s| > 0 && IsSpace(s[|s| - 1]) then 1 + TrailingSpace(s[..|s| - 1]) else 0
  }

  /** `strings.TrimLeft(s, space)`. */
  function TrimLeft(s: string): (r: string)
    ensures r == s[LeadingSpace(s)..]
    ensures r == [] || !IsSpace(r[0])
  {
    s[LeadingSpace(s)..]
  }

  /** `strings.TrimSpace`: the part of `s` left after removing white space at both ends. */
  function TrimSpace(s: string): (r: string)
    ensures LeadingSpace(s) + |r| <= |s|
    ensures r == [] || (!IsSpace(r[0]) && !IsSpace(r[|r| - 1]))
    ensures r == s[LeadingSpace(s)..LeadingSpace(s) + |r|]
  {
    var n := LeadingSpace(s);
    var t := s[n..];
    var r := t[..|t| - TrailingSpace(t)];
    assert r == s[n..n + |r|];
    r
  }

  /** What `TrimSpace` removes is white space. */
  lemma TrimSpaceEnds(s: string)
    ensures var n := LeadingSpace(s);
      AllSpace(s[..n]) && AllSpace(s[n + |TrimSpace(s)|..])
  {
    var n := LeadingSpace(s);
    var t := s[n..];
    var m := TrailingSpace(t);
    var r := TrimSpace(s);
    assert |r| == |t| - m;
    forall i | n + |r| <= i < |s|
      ensures IsSpace(s[i])
    {
      assert s[i] == t[|t| - m..][i - n - |r|];
    }
  }

  lemma AppendAssoc<T>(a: seq<T>, b: seq<T>, c: seq<T>)
    ensures (a + b) + c == a + (b + c)
  {
  }

  lemma PrefixParts<T>(s: seq<T>, n: nat)
    requires 0 < n <= |s|
    ensures s[..n][0] == s[0] && s[..n][1..] == s[1..][..n - 1]
  {
  }

  lemma SliceShift<T>(s: seq<T>, i: nat, j: nat)
    requires 1 <= i <= j <= |s|
    ensures s[i..j] == s[1..][i - 1..j - 1]
  {
    forall k | 0 <= k < j - i
      ensures s[i..j][k] == s[1..][i - 1..j - 1][k]
    {
      assert s[i..j][k] == s[i + k];
    }
  }

  lemma SliceShiftTo<T>(s: seq<T>, i: nat, j: nat, i': nat, j': nat)
    requires 1 <= i <= j <= |s| && i' == i - 1 && j' == j - 1
    ensures s[i..j] == s[1..][i'..j']
  {
    SliceShift(s, i, j);
  }

  lemma EmptyAppend<T>(s: seq<T>)
    ensures [] + s == s && s + [] == s
  {
  }

  lemma HeadTail<T>(p: seq<T>, y: seq<T>)
    requires |p| > 0
    ensures (p + y)[0] == p[0] && (p + y)[1..] == p[1..] + y && [p[0]] + p[1..] == p
  {
  }

  lemma AppendParts<T>(a: seq<T>, b: seq<T>)
    ensures (a + b)[..|a|] == a && (a + b)[|a|..] == b
  {
  }

  /** Dropping one element, then `k - 1` more, is dropping `k`. */
  lemma SliceSplit<T>(s: seq<T>, k: nat)
    requires 0 < k <= |s|
    ensures s[1..][k - 1..] == s[k..] && s[..k] == [s[0]] + s[1..][..k - 1]
  {
  }

  lemma DropDrop<T>(s: seq<T>, i: nat, j: nat)
    requires i + j <= |s|
    ensures s[i..][j..] == s[i + j..]
  {
  }

  lemma DropNone<T>(s: seq<T>)
    ensures s[0..] == s
  {
  }

  lemma ConsParts<T>(x: T, s: seq<T>)
    ensures ([x] + s)[0] == x && ([x] + s)[1..] == s
  {
  }

  /** Text with no white space at either end, as `TrimSpace` leaves it. */
  predicate Trimmed(s: string) {
    |s| > 0 ==> !IsSpace(s[0]) && !IsSpace(s[|s| - 1])
  }

  /** White space in front of trimmed text is exactly what `TrimSpace` removes. */
  lemma TrimSpaceAfterSpace(w: string, s: string)
    requires AllSpace(w) && Trimmed(s)
    ensures TrimSpace(w + s) == s
  {
    LeadingSpaceAppend(w, s);
    assert LeadingSpace(s) == 0;
    assert TrimLeft(w + s) == s;
    assert TrailingSpace(s) == 0;
  }

  predicate HasPrefix(s: string, p: string) {
    |p| <= |s| && s[..|p|] == p
  }

  /** A prefix stays a prefix when text is appended. */
  lemma PrefixExtends(s: string, p: string, t: string)
    requires HasPrefix(s, p)
    ensures HasPrefix(s + t, p)
  {
    AppendAssoc(s[..|p|], s[|p|..], t);
    assert s == s[..|p|] + s[|p|..];
    AppendParts(p, s[|p|..] + t);
  }

  /** `strings.TrimPrefix`. */
  function TrimPrefix(s: string, p: string): (r: string)
    ensures HasPrefix(s, p) ==> p + r == s
    ensures !HasPrefix(s, p) ==> r == s
  {
    if HasPrefix(s, p) then s[|p|..] else s
  }

  predicate HasSuffix(s: string, p: string) {
    |p| <= |s| && s[|s| - |p|..] == p
  }

  /** `strings.TrimSuffix`. */
  function TrimSuffix(s: string, p: string): (r: string)
    ensures HasSuffix(s, p) ==> r + p == s
    ensures !HasSuffix(s, p) ==> r == s
  {
    if HasSuffix(s, p) then s[..|s| - |p|] else s
  }

  /** `strings.Index(s, string(c))`: the first position of `c`, if any. */
  function IndexOf(s: string, c: char): (r: Option<nat>)
    ensures r.None? <==> c !in s
    ensures r.Some? ==> r.value < |s| && s[r.value] == c && c !in s[..r.value]
  {
    if |s| == 0 then None
    else if s[0] == c then Some(0)
    else
      match IndexOf(s[1..], c)
      case None => None
      case Some(i) =>
        assert s[..i + 1] == [s[0]] + s[1..][..i];
        Some(i + 1)
  }

  /** The position found by `IndexOf` is the first occurrence, and any first occurrence is it. */
  lemma IndexOfFirst(s: string, c: char, i: nat)
    requires i < |s| && s[i] == c && c !in s[..i]
    ensures IndexOf(s, c) == Some(i)
  {
  }

  predicate OccursAt(s: string, sub: string, i: int) {
    0 <= i && i + |sub| <= |s| && s[i..i + |sub|] == sub
  }

  /** `strings.Contains`: whether `sub` occurs somewhere in `s` (the empty string occurs everywhere). */
  function Contains(s: string, sub: string): (b: bool)
    ensures b <==> exists i :: OccursAt(s, sub, i)
  {
    if HasPrefix(s, sub) then
      assert OccursAt(s, sub, 0);
      true
    else if |s| == 0 then
      false
    else
      var b := Contains(s[1..], sub);
      if b then
        var i :| OccursAt(s[1..], sub, i);
        assert OccursAt(s, sub, i + 1);
        true
      else
        assert forall i | OccursAt(s, sub, i) :: i > 0 && OccursAt(s[1..], sub, i - 1);
        false
  }

  /** `strings.Join`. */
  function Join(parts: seq<string>, sep: string): string {
    if |parts| == 0 then ""
    else if |parts| == 1 then parts[0]
    else parts[0] + sep + Join(parts[1..], sep)
  }

  /** `strings.Split(s, string(c))`: the pieces between occurrences of `c`. */
  function Split(s: string, c: char): (r: seq<string>)
    ensures |r| > 0
    ensures forall i :: 0 <= i < |r| ==> c !in r[i]
    decreases |s|
  {
    match IndexOf(s, c)
    case None => [s]
    case Some(i) => [s[..i]] + Split(s[i + 1..], c)
  }

  /** Splitting a join on its one-character separator gives the parts back,
      as long as no part contains the separator (lines read by a line scanner never do). */
  lemma {:induction false} SplitJoin(parts: seq<string>, c: char)
    requires |parts| > 0
    requires forall i :: 0 <= i < |parts| ==> c !in parts[i]
    ensures Split(Join(parts, [c]), c) == parts
  {
    if |parts| > 1 {
      var p := parts[0];
      var rest := Join(parts[1..], [c]);
      var s := p + [c] + rest;
      AppendAssoc(p, [c], rest);
      AppendParts(p, [c] + rest);
      ConsParts(c, rest);
      DropDrop(s, |p|, 1);
      IndexOfFirst(s, c, |p|);
      SplitJoin(parts[1..], c);
      HeadTail(parts, []);
    }
  }

  /** `strings.SplitN(s, string(c), 2)` as a pair: `None` when `c` does not occur. */
  function SplitFirst(s: string, c: char): (r: Option<(string, string)>)
    ensures r.None? <==> c !in s
    ensures r.Some? ==> r.value.0 + [c] + r.value.1 == s && c !in r.value.0
  {
    match IndexOf(s, c)
    case None => None
    case Some(i) =>
      assert s == s[..i] + [c] + s[i + 1..];
      Some((s[..i], s[i + 1..]))
  }

  /** Length of the longest prefix of `s` without white space. */
  function WordLength(s: string): (n: nat)
    ensures n <= |s| && NoSpace(s[..n])
    ensures n == |s| || IsSpace(s[n])
  {
    if |s| > 0 && !IsSpace(s[0]) then 1 + WordLength(s[1..]) else 0
  }

  /** `strings.Fields`: the maximal runs of non-space characters, in order. */
  function Fields(s: string): (r: seq<string>)
    ensures forall i :: 0 <= i < |r| ==> |r[i]| > 0 && NoSpace(r[i])
    ensures NoSpace(s) && |s| > 0 ==> r == [s]
    ensures AllSpace(s) ==> r == []
    decreases |s|
  {
    var t := TrimLeft(s);
    if |t| == 0 then []
    else
      var n := WordLength(t);
      if NoSpace(s) then
        assert n == |t| && t == s && t[..n] == s;
        assert Fields(t[n..]) == [] by { assert AllSpace(t[n..]); }
        [t[..n]] + Fields(t[n..])
      else
        [t[..n]] + Fields(t[n..])
  }

  /** One unfolding of `Fields`: the first word after the leading space, then the rest. */
  lemma FieldsUnfold(s: string)
    ensures TrimLeft(s) == [] ==> Fields(s) == []
    ensures TrimLeft(s) != [] ==>
      Fields(s) == [TrimLeft(s)[..WordLength(TrimLeft(s))]] + Fields(TrimLeft(s)[WordLength(TrimLeft(s))..])
  {
  }

  /** Text that starts with a non-space character has at least one field. */
  lemma FieldsNonEmpty(s: string)
    requires |s| > 0 && !IsSpace(s[0])
    ensures |Fields(s)| >= 1
  {
    FieldsUnfold(s);
  }

  lemma {:induction false} LeadingSpaceAppend(a: string, b: string)
    requires AllSpace(a)
    ensures LeadingSpace(a + b) == |a| + LeadingSpace(b)
    decreases |a|
  {
    if |a| > 0 {
      assert (a + b)[1..] == a[1..] + b;
      LeadingSpaceAppend(a[1..], b);
    } else {
      assert a + b == b;
    }
  }

  lemma {:induction false} WordLengthAppend(a: string, b: string)
    requires WordLength(a) < |a| || (|b| > 0 && IsSpace(b[0]))
    ensures WordLength(a + b) == WordLength(a)
    decreases |a|
  {
    if |a| > 0 && !IsSpace(a[0]) {
      assert (a + b)[1..] == a[1..] + b;
      WordLengthAppend(a[1..], b);
    } else if |a| == 0 {
      assert a + b == b;
    }
  }

  /** Two texts with the same left-trimmed form have the same fields. */
  lemma FieldsByTrim(s: string, t: string)
    requires TrimLeft(s) == TrimLeft(t)
    ensures Fields(s) == Fields(t)
  {
    FieldsUnfold(s);
    FieldsUnfold(t);
  }

  /** Fields of texts joined by a white-space character are the fields of each, in order. */
  lemma {:induction false} FieldsJoin(x: string, c: char, y: string)
    requires IsSpace(c)
    ensures Fields(x + [c] + y) == Fields(x) + Fields(y)
    decreases |x|
  {
    var l := LeadingSpace(x);
    if l == |x| {
      FieldsJoinBlank(x, c, y);
    } else {
      var x' := x[l..];
      var n := WordLength(x');
      FieldsJoinWord(x, c, y);
      var r := x'[n..];
      FieldsJoin(r, c, y);
      ConsAppend(x'[..n], Fields(r), Fields(y));
    }
  }

  lemma ConsAppend(w: string, a: seq<string>, b: seq<string>)
    ensures [w] + (a + b) == ([w] + a) + b
  {
  }

  /** `FieldsJoin` when `x` is all white space. */
  lemma FieldsJoinBlank(x: string, c: char, y: string)
    requires IsSpace(c) && LeadingSpace(x) == |x|
    ensures Fields(x + [c] + y) == Fields(x) + Fields(y)
  {
    var s := x + [c] + y;
    assert AllSpace(x + [c]) by {
      assert x[..|x|] == x;
    }
    LeadingSpaceAppend(x + [c], y);
    assert TrimLeft(s) == TrimLeft(y);
    FieldsByTrim(s, y);
    FieldsUnfold(x);
  }

  /** `FieldsJoin` when `x` holds a word: both sides start with that word. */
  lemma FieldsJoinWord(x: string, c: char, y: string)
    requires IsSpace(c) && LeadingSpace(x) < |x|
    ensures var x' := x[LeadingSpace(x)..];
      var n := WordLength(x');
      && 0 < n <= |x'|
      && Fields(x + [c] + y) == [x'[..n]] + Fields(x'[n..] + [c] + y)
      && Fields(x) == [x'[..n]] + Fields(x'[n..])
  {
    var l := LeadingSpace(x);
    var x' := x[l..];
    var z := [c] + y;
    var s := x + z;
    AppendAssoc(x, [c], y);
    LeadingSpaceKeep(x, z);
    SliceAppend(x, z, l);
    WordLengthAppend(x', z);
    var n := WordLength(x');
    SliceAppend(x', z, n);
    AppendAssoc(x'[n..], [c], y);
    FieldsAt(s, l, x' + z, n);
    FieldsAt(x, l, x', n);
  }

  /** Slicing a concatenation inside its first part. */
  lemma SliceAppend<T>(a: seq<T>, b: seq<T>, n: nat)
    requires n <= |a|
    ensures (a + b)[..n] == a[..n] && (a + b)[n..] == a[n..] + b
  {
  }

  /** Text with a non-space character: its first word, then the fields of the rest. */
  lemma FieldsAt(s: string, l: nat, t: string, n: nat)
    requires l == LeadingSpace(s) < |s| && t == s[l..] && n == WordLength(t)
    ensures Fields(s) == [t[..n]] + Fields(t[n..])
  {
    FieldsUnfold(s);
  }

  /** Text appended after a non-space character leaves the leading space alone. */
  lemma {:induction false} LeadingSpaceKeep(x: string, z: string)
    requires LeadingSpace(x) < |x|
    ensures LeadingSpace(x + z) == LeadingSpace(x)
    decreases |x|
  {
    assert (x + z)[0] == x[0];
    if IsSpace(x[0]) {
      assert (x + z)[1..] == x[1..] + z;
      LeadingSpaceKeep(x[1..], z);
    }
  }

  /** ASCII upper case letters folded to lower case. `strings.ToLower` also folds
      non-ASCII letters; see `Client.ParseProtocol` for why that does not matter here. */
  function ToLowerAscii(s: string): (r: string)
    ensures |r| == |s|
    ensures forall i :: 0 <= i < |s| ==> !('A' <= r[i] <= 'Z')
    ensures forall i :: 0 <= i < |s| ==> (r[i] == s[i] || ('A' <= s[i] <= 'Z' && r[i] as int == s[i] as int + 32))
  {
    if |s| == 0 then ""
    else
      var c := if 'A' <= s[0] <= 'Z' then (s[0] as int + 32) as char else s[0];
      [c] + ToLowerAscii(s[1..])
  }

  /** `strings.ReplaceAll(s, pat, rep)` for a non-empty `pat`: a left-to-right scan
      that replaces each non-overlapping occurrence. */
  function ReplaceAll(s: string, pat: string, rep: string): string
    requires |pat| > 0
    decreases |s|
  {
    if |s| == 0 then ""
    else if HasPrefix(s, pat) then rep + ReplaceAll(s[|pat|..], pat, rep)
    else [s[0]] + ReplaceAll(s[1..], pat, rep)
  }

  /** Text without any occurrence of `pat` is left alone. */
  lemma {:induction false} ReplaceAllAbsent(s: string, pat: string, rep: string)
    requires |pat| > 0
    requires !Contains(s, pat)
    ensures ReplaceAll(s, pat, rep) == s
    decreases |s|
  {
    if |s| > 0 {
      assert !OccursAt(s, pat, 0);
      ReplaceAllAbsent(s[1..], pat, rep);
    }
  }

  /** Replacing with the pattern itself changes nothing. */
  lemma {:induction false} ReplaceAllIdentity(s: string, pat: string)
    requires |pat| > 0
    ensures ReplaceAll(s, pat, pat) == s
    decreases |s|
  {
    if |s| > 0 {
      if HasPrefix(s, pat) {
        ReplaceAllIdentity(s[|pat|..], pat);
        assert s == pat + s[|pat|..];
      } else {
        ReplaceAllIdentity(s[1..], pat);
        assert s == [s[0]] + s[1..];
      }
    }
  }

  /** `strconv.Quote` for text whose only special characters are quotes,
      backslashes and ASCII control characters. */
  function Quote(s: string): (r: string)
    ensures |r| >= 2 && r[0] == '"' && r[|r| - 1] == '"'
  {
    "\"" + QuoteBody(s) + "\""
  }

  function QuoteBody(s: string): string {
    if |s| == 0 then ""
    else EscapeChar(s[0]) + QuoteBody(s[1..])
  }

  function HexDigit(d: nat): char
    requires d < 16
  {
    "0123456789abcdef"[d]
  }

  function EscapeChar(c: char): string {
    if c == '"' then "\\\""
    else if c == '\\' then "\\\\"
    else if c == '\U{0007}' then "\\a"
    else if c == '\U{0008}' then "\\b"
    else if c == '\U{000C}' then "\\f"
    else if c == '\n' then "\\n"
    else if c == '\r' then "\\r"
    else if c == '\t' then "\\t"
    else if c == '\U{000B}' then "\\v"
    else if (c as int) < 0x20 || c as int == 0x7F then ['\\', 'x', HexDigit(c as int / 16), HexDigit(c as int % 16)]
    else [c]
  }
}
