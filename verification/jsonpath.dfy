/** The path language used by captures and assertions: `$`/`$.` root markers,
    dotted keys and `[n]` array indexes, evaluated against a decoded response. */
module JsonPath {
  import opened Wrappers
  import opened Json
  import Text
  import Numbers

  /** The distinct ways an evaluation fails. */
  datatype PathError =
    | InvalidJson(reason: string)
    | UnclosedIndex(path: string)
    | BadIndex(text: string, cause: Numbers.NumError)
    | ExpectedArray(got: string)
    | OutOfBounds(index: int)
    | ExpectedObject(key: string, got: string)
    | KeyNotFound(key: string)

  /** The error text Go's `fmt.Errorf` produces for each failure. */
  function ErrorText(e: PathError): string {
    match e
    case InvalidJson(reason) => "invalid JSON response: " + reason
    case UnclosedIndex(path) => "unclosed array index in path: " + path
    case BadIndex(text, cause) => "invalid array index '" + text + "': " + Numbers.AtoiErrorText(text, cause)
    case ExpectedArray(got) => "expected array but got " + got
    case OutOfBounds(index) => "array index out of bounds: " + Numbers.IntToString(index)
    case ExpectedObject(key, got) => "expected object for key '" + key + "' but got " + got
    case KeyNotFound(key) => "key '" + key + "' not found"
  }

  /** The optional root selector: `$.` is removed, else a lone leading `$`. */
  function StripRoot(path: string): (p: string)
    ensures |p| <= |path|
    ensures Text.HasPrefix(path, "$.") ==> "$." + p == path
    ensures !Text.HasPrefix(path, "$.") && Text.HasPrefix(path, "$") ==> "$" + p == path
    ensures !Text.HasPrefix(path, "$") ==> p == path
  {
    if Text.HasPrefix(path, "$.") then path[2..]
    else if Text.HasPrefix(path, "$") then path[1..]
    else path
  }

  /** `evaluatePath`: one step of the descent, then a recursive call on a strictly
      shorter path. The root marker is stripped at every step, not only the first. */
  function Evaluate(data: Json, path: string): Result<Json, PathError>
    decreases |path|, 1
  {
    EvaluateStripped(data, StripRoot(path))
  }

  /** One step of `evaluatePath` on a path whose root marker is already removed. */
  function EvaluateStripped(data: Json, p: string): Result<Json, PathError>
    decreases |p|, 0
  {
    if p == "" then Ok(data)
    else if p[0] == '[' then
      match Text.IndexOf(p, ']')
      case None => Err(UnclosedIndex(p))
      case Some(end) =>
        var idxText := p[1..end];
        match Numbers.Atoi(idxText)
        case Err(cause) => Err(BadIndex(idxText, cause))
        case Ok(idx) =>
          if !data.JArr? then Err(ExpectedArray(TypeName(data)))
          else if idx < 0 || idx >= |data.items| then Err(OutOfBounds(idx))
          else Evaluate(data.items[idx], Text.TrimPrefix(p[end + 1..], "."))
    else
      var key := Segment(p);
      match Text.IndexOf(key, '[')
      case Some(b) =>
        var realKey := key[..b];
        var remaining := key[b..] + (if |key| < |p| then "." + p[|key| + 1..] else "");
        assert |remaining| < |p| by { assert b > 0; }
        if !data.JObj? then Err(ExpectedObject(realKey, TypeName(data)))
        else if realKey !in data.fields then Err(KeyNotFound(realKey))
        else Evaluate(data.fields[realKey], remaining)
      case None =>
        if !data.JObj? then Err(ExpectedObject(key, TypeName(data)))
        else if key !in data.fields then Err(KeyNotFound(key))
        else if |key| < |p| then Evaluate(data.fields[key], p[|key| + 1..])
        else Ok(data.fields[key])
  }

  /** The text before the first `.` (all of `p` when there is none): `SplitN(p, ".", 2)[0]`. */
  function Segment(p: string): (key: string)
    ensures |key| <= |p| && key == p[..|key|] && '.' !in key
    ensures |key| < |p| ==> p[|key|] == '.'
  {
    match Text.IndexOf(p, '.')
    case None => p
    case Some(i) => p[..i]
  }

  /** `EvaluateJSONPath`: decode the response, evaluate, print the result with `%v`. */
  function EvaluateJsonPath(response: Decoded, path: string): (r: Result<string, PathError>)
    ensures response.Invalid? ==> r == Err(InvalidJson(response.reason))
    ensures response.Valid? ==>
      (r.Ok? <==> Evaluate(response.value, path).Ok?)
      && (r.Ok? ==> r.value == Render(Evaluate(response.value, path).value))
      && (r.Err? ==> r.error == Evaluate(response.value, path).error)
  {
    match response
    case Invalid(reason) => Err(InvalidJson(reason))
    case Valid(doc) =>
      match Evaluate(doc, path)
      case Err(e) => Err(e)
      case Ok(v) => Ok(Render(v))
  }

  // ---------------------------------------------------------------------------
  // An independent reference semantics: a path as a list of steps.

  datatype Step = Key(name: string) | Index(i: int)

  /** Walking a list of steps through a value, with the same failures. */
  function Walk(data: Json, steps: seq<Step>): Result<Json, PathError>
    decreases |steps|
  {
    if |steps| == 0 then Ok(data)
    else
      match steps[0]
      case Key(k) =>
        if !data.JObj? then Err(ExpectedObject(k, TypeName(data)))
        else if k !in data.fields then Err(KeyNotFound(k))
        else Walk(data.fields[k], steps[1..])
      case Index(i) =>
        if !data.JArr? then Err(ExpectedArray(TypeName(data)))
        else if i < 0 || i >= |data.items| then Err(OutOfBounds(i))
        else Walk(data.items[i], steps[1..])
  }

  /** A key the dotted syntax can spell: non-empty, no `.` or `[`, not starting with `$`. */
  predicate PlainKey(k: string) {
    |k| > 0 && '.' !in k && '[' !in k && k[0] != '$'
  }

  predicate Writable(steps: seq<Step>) {
    forall j :: 0 <= j < |steps| ==>
      match steps[j]
      case Key(k) => PlainKey(k)
      case Index(i) => Numbers.IsInt64(i)
  }

  /** The path text for a list of steps: keys joined by `.`, indexes as `[n]`. */
  function Unparse(steps: seq<Step>): string
    decreases |steps|
  {
    if |steps| == 0 then ""
    else
      var head := match steps[0] case Key(k) => k case Index(i) => "[" + Numbers.IntToString(i) + "]";
      var sep := if |steps| > 1 && steps[1].Key? then "." else "";
      head + sep + Unparse(steps[1..])
  }

  lemma UnparseShape(steps: seq<Step>)
    requires Writable(steps)
    ensures |steps| == 0 <==> Unparse(steps) == ""
    ensures |steps| > 0 && steps[0].Index? ==> Unparse(steps)[0] == '['
    ensures |steps| > 0 && steps[0].Key? ==> Unparse(steps)[0] == steps[0].name[0]
  {
  }

  lemma IntToStringNoBracket(i: int)
    ensures ']' !in Numbers.IntToString(i) && '.' !in Numbers.IntToString(i) && '[' !in Numbers.IntToString(i)
  {
    var s := Numbers.IntToString(i);
    var d := Numbers.NatToString(if i < 0 then -i else i);
    assert forall j :: 0 <= j < |d| ==> Numbers.IsDigit(d[j]);
    assert s == d || s == "-" + d;
  }

  /** One step on `[n]`: the bracketed index selects an array element and the rest of
      the path, minus one leading `.`, continues from it. */
  lemma StepIndex(data: Json, i: int, sep: string, tail: string)
    requires Numbers.IsInt64(i)
    requires sep == "." || (sep == "" && (tail == "" || tail[0] != '.'))
    ensures Evaluate(data, "[" + Numbers.IntToString(i) + "]" + sep + tail) ==
      if !data.JArr? then Err(ExpectedArray(TypeName(data)))
      else if i < 0 || i >= |data.items| then Err(OutOfBounds(i))
      else Evaluate(data.items[i], tail)
  {
    IndexPathParts(i, sep, tail);
  }

  /** How `[n]` followed by `sep` and `tail` reads: the bracket closes right after the
      digits, which convert back to `n`, and the rest minus one `.` is `tail`. */
  lemma IndexPathParts(i: int, sep: string, tail: string)
    requires Numbers.IsInt64(i)
    requires sep == "." || (sep == "" && (tail == "" || tail[0] != '.'))
    ensures var num := Numbers.IntToString(i);
      var p := "[" + num + "]" + sep + tail;
      && p != "" && p[0] == '[' && StripRoot(p) == p
      && Text.IndexOf(p, ']') == Some(|num| + 1)
      && p[1..|num| + 1] == num
      && Numbers.Atoi(num) == Ok(i)
      && Text.TrimPrefix(p[|num| + 2..], ".") == tail
  {
    var num := Numbers.IntToString(i);
    IntToStringNoBracket(i);
    Numbers.AtoiOfIntToString(i);
    BracketText(num, sep, tail);
  }

  lemma BracketText(num: string, sep: string, tail: string)
    requires ']' !in num
    requires sep == "." || (sep == "" && (tail == "" || tail[0] != '.'))
    ensures var p := "[" + num + "]" + sep + tail;
      && p != "" && p[0] == '[' && StripRoot(p) == p
      && Text.IndexOf(p, ']') == Some(|num| + 1)
      && p[1..|num| + 1] == num
      && Text.TrimPrefix(p[|num| + 2..], ".") == tail
  {
    var p := "[" + num + "]" + sep + tail;
    assert p[0] == '[';
    assert !Text.HasPrefix(p, "$") by {
      assert p[..1] == "[";
    }
    assert p[..|num| + 1] == "[" + num;
    Text.IndexOfFirst(p, ']', |num| + 1);
    assert p[1..|num| + 1] == num;
    assert p[|num| + 2..] == sep + tail;
    if sep == "" {
      assert sep + tail == tail;
      assert !Text.HasPrefix(tail, ".") by {
        if tail != "" {
          assert tail[..1] == [tail[0]];
        }
      }
    } else {
      assert Text.HasPrefix(sep + tail, ".") by {
        assert (sep + tail)[..1] == ".";
      }
      assert (sep + tail)[1..] == tail;
    }
  }

  /** A leading `[` that no `]` closes fails with the whole path in the message. */
  lemma UnclosedIndexFails(data: Json, rest: string)
    requires forall j :: 0 <= j < |rest| ==> rest[j] != ']'
    ensures Evaluate(data, "[" + rest) == Err(UnclosedIndex("[" + rest))
  {
    var p := "[" + rest;
    assert !Text.HasPrefix(p, "$") by {
      assert p[..1] == "[";
    }
    assert ']' !in p by {
      forall j | 0 <= j < |p| ensures p[j] != ']' {
        if j > 0 { assert p[j] == rest[j - 1]; }
      }
    }
  }

  /** An index text `Atoi` rejects fails with that text and `Atoi`'s error, before the
      value is looked at and whatever follows the `]`. */
  lemma BadIndexText(data: Json, num: string, tail: string)
    requires ']' !in num && Numbers.Atoi(num).Err?
    ensures Evaluate(data, "[" + num + "]" + tail) == Err(BadIndex(num, Numbers.Atoi(num).error))
  {
    var p := "[" + num + "]" + tail;
    assert p[0] == '[';
    assert !Text.HasPrefix(p, "$") by {
      assert p[..1] == "[";
    }
    assert p[..|num| + 1] == "[" + num;
    Text.IndexOfFirst(p, ']', |num| + 1);
    assert p[1..|num| + 1] == num;
  }

  /** One step on a final key: the field itself. */
  lemma StepLastKey(data: Json, k: string)
    requires PlainKey(k)
    ensures Evaluate(data, k) ==
      if !data.JObj? then Err(ExpectedObject(k, TypeName(data)))
      else if k !in data.fields then Err(KeyNotFound(k))
      else Ok(data.fields[k])
  {
    assert StripRoot(k) == k;
    assert Segment(k) == k;
  }

  /** One step on `k.rest`: the field, then the rest. */
  lemma StepDottedKey(data: Json, k: string, tail: string)
    requires PlainKey(k) && tail != ""
    ensures Evaluate(data, k + "." + tail) ==
      if !data.JObj? then Err(ExpectedObject(k, TypeName(data)))
      else if k !in data.fields then Err(KeyNotFound(k))
      else Evaluate(data.fields[k], tail)
  {
    var p := k + "." + tail;
    assert p[0] == k[0];
    assert StripRoot(p) == p;
    Text.IndexOfFirst(p, '.', |k|);
    assert Segment(p) == k;
    assert p[|k| + 1..] == tail;
  }

  /** One step on `k[...]`: the field, then the bracketed rest. */
  lemma StepIndexedKey(data: Json, k: string, tail: string)
    requires PlainKey(k) && tail != "" && tail[0] == '['
    ensures Evaluate(data, k + tail) ==
      if !data.JObj? then Err(ExpectedObject(k, TypeName(data)))
      else if k !in data.fields then Err(KeyNotFound(k))
      else Evaluate(data.fields[k], tail)
  {
    var p := k + tail;
    assert p[0] == k[0];
    assert StripRoot(p) == p;
    IndexedKeySplit(k, tail);
    UnfoldIndexedKey(data, p, |k|);
  }

  /** For `p = k[...]`, the bracket found in the first segment sits right after `k`, and
      the path rebuilt from the bracket onwards is the tail. */
  lemma IndexedKeySplit(k: string, tail: string)
    requires PlainKey(k) && tail != "" && tail[0] == '['
    ensures var p := k + tail;
      var key := Segment(p);
      && Text.IndexOf(key, '[') == Some(|k|)
      && key[..|k|] == k
      && key[|k|..] + (if |key| < |p| then "." + p[|key| + 1..] else "") == tail
  {
    var p := k + tail;
    var key := Segment(p);
    SegmentPastKey(k, tail);
    Text.IndexOfFirst(key, '[', |k|);
    if |key| < |p| {
      assert p[|k|..] == key[|k|..] + "." + p[|key| + 1..];
    } else {
      assert key == p;
    }
  }

  /** The `key[...]` branch of `EvaluateStripped`, unfolded once. */
  lemma UnfoldIndexedKey(data: Json, p: string, b: nat)
    requires p != "" && p[0] != '[' && Text.IndexOf(Segment(p), '[') == Some(b)
    ensures var key := Segment(p);
      var remaining := key[b..] + (if |key| < |p| then "." + p[|key| + 1..] else "");
      EvaluateStripped(data, p) ==
        if !data.JObj? then Err(ExpectedObject(key[..b], TypeName(data)))
        else if key[..b] !in data.fields then Err(KeyNotFound(key[..b]))
        else Evaluate(data.fields[key[..b]], remaining)
  {
  }

  /** The first segment of `k[...]` reaches past the key `k`. */
  lemma SegmentPastKey(k: string, tail: string)
    requires PlainKey(k) && tail != "" && tail[0] == '['
    ensures |Segment(k + tail)| > |k| && Segment(k + tail)[..|k|] == k && Segment(k + tail)[|k|] == '['
  {
    var p := k + tail;
    var key := Segment(p);
    assert p[|k|] == '[';
    if |key| <= |k| {
      assert false;
    }
  }

  /** Steps after the first are writable when the whole list is. */
  lemma WritableTail(steps: seq<Step>)
    requires Writable(steps) && |steps| > 0
    ensures Writable(steps[1..])
  {
    forall j | 0 <= j < |steps| - 1
      ensures match steps[1..][j] case Key(k) => PlainKey(k) case Index(i) => Numbers.IsInt64(i)
    {
      assert steps[1..][j] == steps[j + 1];
    }
  }

  /** The text of a non-empty step list: its first step, a `.` when a key follows, the rest. */
  lemma UnparseCons(steps: seq<Step>)
    requires |steps| > 0
    ensures Unparse(steps) ==
      (match steps[0] case Key(k) => k case Index(i) => "[" + Numbers.IntToString(i) + "]")
      + (if |steps| > 1 && steps[1].Key? then "." else "") + Unparse(steps[1..])
  {
  }

  /** Evaluating the text of a step list is walking the steps: the string parser and
      the structured reference agree on every value and every failure. */
  lemma {:induction false} EvaluateUnparse(data: Json, steps: seq<Step>)
    requires Writable(steps)
    ensures Evaluate(data, Unparse(steps)) == Walk(data, steps)
    decreases |steps|
  {
    if |steps| == 0 {
      return;
    }
    var rest := steps[1..];
    WritableTail(steps);
    UnparseCons(steps);
    UnparseShape(rest);
    var tail := Unparse(rest);
    match steps[0]
    case Index(i) =>
      var sep := if |rest| > 0 && rest[0].Key? then "." else "";
      StepIndex(data, i, sep, tail);
      if data.JArr? && 0 <= i < |data.items| {
        EvaluateUnparse(data.items[i], rest);
      }
    case Key(k) =>
      StepKey(data, k, rest);
      if data.JObj? && k in data.fields {
        EvaluateUnparse(data.fields[k], rest);
      }
  }

  /** One step on a key followed by the text of further steps, whatever they are. */
  lemma StepKey(data: Json, k: string, rest: seq<Step>)
    requires PlainKey(k) && Writable(rest)
    ensures Evaluate(data, k + (if |rest| > 0 && rest[0].Key? then "." else "") + Unparse(rest)) ==
      if !data.JObj? then Err(ExpectedObject(k, TypeName(data)))
      else if k !in data.fields then Err(KeyNotFound(k))
      else if |rest| == 0 then Ok(data.fields[k])
      else Evaluate(data.fields[k], Unparse(rest))
  {
    var tail := Unparse(rest);
    UnparseShape(rest);
    if |rest| == 0 {
      Text.EmptyAppend(k);
      Text.EmptyAppend(tail);
      StepLastKey(data, k);
    } else if rest[0].Key? {
      StepDottedKey(data, k, tail);
    } else {
      Text.EmptyAppend(k);
      StepIndexedKey(data, k, tail);
    }
  }

  /** A `$.` or `$` in front of a path changes nothing, provided the path does not itself
      start with `$` (which the next step would strip too). */
  lemma RootMarkerIgnored(data: Json, p: string)
    requires p == "" || p[0] != '$'
    ensures Evaluate(data, "$." + p) == Evaluate(data, p)
    ensures p == "" || p[0] != '.' ==> Evaluate(data, "$" + p) == Evaluate(data, p)
  {
    assert StripRoot("$." + p) == p;
    assert StripRoot(p) == p;
    if p == "" || p[0] != '.' {
      assert StripRoot("$" + p) == p;
    }
  }
}
