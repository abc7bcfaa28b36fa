/** Checking one `jsonpath` assertion of a request file against a decoded response:
    a pass/fail verdict and the exact line the run prints for it. */
module Assert {
  import opened Wrappers
  import opened Json
  import JsonPath
  import FileParser
  import Text

  /** `assert.Result`. `Check`'s error result is always `nil` in the source, so it is
      not part of the model's result. */
  datatype CheckResult = CheckResult(pass: bool, message: string)

  /** What each supported operator means, independently of how `Check` computes it:
      `None` for an operator the checker does not know. */
  ghost function Meaning(op: string, actual: string, expected: string): Option<bool> {
    if op == "==" then Some(actual == expected)
    else if op == "!=" then Some(actual != expected)
    else if op == "contains" then Some(exists i :: Text.OccursAt(actual, expected, i))
    else None
  }

  /** The verdict line for a comparison that was carried out. */
  function Verdict(a: FileParser.Assertion, actual: string, pass: bool): string {
    (if pass then "PASS" else "FAIL") + ": jsonpath \"" + a.key + "\" " + a.op + " \"" + a.value + "\""
      + (if pass then "" else " (actual: \"" + actual + "\")")
  }

  /** `Check`: an assertion of another type passes with a warning; a path that does not
      evaluate fails before the operator is looked at; an unknown operator fails; otherwise
      the comparison decides and the message shows the actual value only on failure. */
  function Check(a: FileParser.Assertion, response: Decoded): (r: CheckResult)
    ensures a.kind != "jsonpath" ==>
      r == CheckResult(true, "Warning: skipping unknown assertion type '" + a.kind + "'")
    ensures a.kind == "jsonpath" ==>
      var v := JsonPath.EvaluateJsonPath(response, a.key);
      && (v.Err? ==>
            r == CheckResult(false, "failed to evaluate jsonpath '" + a.key + "': " + JsonPath.ErrorText(v.error)))
      && (v.Ok? && Meaning(a.op, v.value, a.value).None? ==>
            r == CheckResult(false, "unknown operator '" + a.op + "'"))
      && (v.Ok? && Meaning(a.op, v.value, a.value).Some? ==>
            r.pass == Meaning(a.op, v.value, a.value).value && r.message == Verdict(a, v.value, r.pass))
  {
    if a.kind != "jsonpath" then
      CheckResult(true, "Warning: skipping unknown assertion type '" + a.kind + "'")
    else
      match JsonPath.EvaluateJsonPath(response, a.key)
      case Err(e) => CheckResult(false, "failed to evaluate jsonpath '" + a.key + "': " + JsonPath.ErrorText(e))
      case Ok(val) =>
        var known := a.op == "==" || a.op == "!=" || a.op == "contains";
        if !known then CheckResult(false, "unknown operator '" + a.op + "'")
        else
          var pass :=
            if a.op == "==" then val == a.value
            else if a.op == "!=" then val != a.value
            else Text.Contains(val, a.value);
          CheckResult(pass, Verdict(a, val, pass))
  }

  /** The verdict is the same whatever the operator: a `jsonpath` assertion passes
      exactly when its path evaluates and the operator holds of the result. */
  lemma PassMeans(a: FileParser.Assertion, response: Decoded)
    ensures Check(a, response).pass <==>
      a.kind != "jsonpath" ||
      (JsonPath.EvaluateJsonPath(response, a.key).Ok?
       && Meaning(a.op, JsonPath.EvaluateJsonPath(response, a.key).value, a.value) == Some(true))
  {
  }

  /** `!=` passes exactly when `==` on the same path and value fails. */
  lemma NotEqualsNegates(kind: string, key: string, value: string, response: Decoded)
    requires kind == "jsonpath" && JsonPath.EvaluateJsonPath(response, key).Ok?
    ensures Check(FileParser.Assertion(kind, key, "!=", value), response).pass
      == !Check(FileParser.Assertion(kind, key, "==", value), response).pass
  {
  }

  /** A value that passes `==` also passes `contains`. */
  lemma EqualsImpliesContains(kind: string, key: string, value: string, response: Decoded)
    requires Check(FileParser.Assertion(kind, key, "==", value), response).pass
    ensures Check(FileParser.Assertion(kind, key, "contains", value), response).pass
  {
    var v := JsonPath.EvaluateJsonPath(response, key);
    if kind == "jsonpath" {
      assert Text.OccursAt(v.value, value, 0);
    }
  }

  /** A path error wins over an unknown operator, and the path is never evaluated for
      an assertion of another type. */
  lemma PathErrorFirst(a: FileParser.Assertion, response: Decoded)
    requires a.kind == "jsonpath" && JsonPath.EvaluateJsonPath(response, a.key).Err?
    ensures !Check(a, response).pass
    ensures Text.HasPrefix(Check(a, response).message, "failed to evaluate jsonpath '")
  {
  }

  /** A verdict line begins with `PASS: ` exactly when the comparison held. */
  lemma VerdictStatus(a: FileParser.Assertion, actual: string, pass: bool)
    ensures Text.HasPrefix(Verdict(a, actual, pass), "PASS: ") <==> pass
  {
    var pre := if pass then "PASS: " else "F";
    var h0 := (if pass then "PASS" else "FAIL") + ": jsonpath \"";
    assert Text.HasPrefix(h0, pre);
    var h1 := h0 + a.key;
    Text.PrefixExtends(h0, pre, a.key);
    var h2 := h1 + "\" ";
    Text.PrefixExtends(h1, pre, "\" ");
    var h3 := h2 + a.op;
    Text.PrefixExtends(h2, pre, a.op);
    var h4 := h3 + " \"";
    Text.PrefixExtends(h3, pre, " \"");
    var h5 := h4 + a.value;
    Text.PrefixExtends(h4, pre, a.value);
    var h6 := h5 + "\"";
    Text.PrefixExtends(h5, pre, "\"");
    var tail := if pass then "" else " (actual: \"" + actual + "\")";
    Text.PrefixExtends(h6, pre, tail);
    assert Verdict(a, actual, pass) == h6 + tail;
    if !pass {
      var m := Verdict(a, actual, pass);
      assert m[0] == 'F';
      assert |m| >= 6 ==> m[..6][0] == 'F';
    }
  }

  /** A failing verdict line ends by showing the actual value. */
  lemma VerdictShowsActual(a: FileParser.Assertion, actual: string)
    ensures Text.HasSuffix(Verdict(a, actual, false), " (actual: \"" + actual + "\")")
  {
    var head := "FAIL" + ": jsonpath \"" + a.key + "\" " + a.op + " \"" + a.value + "\"";
    var tail := " (actual: \"" + actual + "\")";
    assert Verdict(a, actual, false) == head + tail;
    Text.AppendParts(head, tail);
  }

  /** For a comparison that was carried out, the message begins with `PASS: ` exactly
      when it passed, and a failing message ends with ` (actual: "<value>")`. */
  lemma ActualShownOnFailure(a: FileParser.Assertion, response: Decoded)
    requires a.kind == "jsonpath" && JsonPath.EvaluateJsonPath(response, a.key).Ok?
    requires Meaning(a.op, JsonPath.EvaluateJsonPath(response, a.key).value, a.value).Some?
    ensures var r := Check(a, response);
      r.pass <==> Text.HasPrefix(r.message, "PASS: ")
    ensures var r := Check(a, response);
      !r.pass ==> Text.HasSuffix(r.message, " (actual: \"" + JsonPath.EvaluateJsonPath(response, a.key).value + "\")")
  {
    var r := Check(a, response);
    var actual := JsonPath.EvaluateJsonPath(response, a.key).value;
    VerdictStatus(a, actual, r.pass);
    VerdictShowsActual(a, actual);
  }

  // ---------------------------------------------------------------------------
  // The cases of the checker's own test table, against any response whose `id` is
  // `"123"` and whose `status` is `"active"`.

  /** A response object with string fields `id` and `status` as in the test table. */
  predicate TestDocument(doc: Json) {
    doc.JObj? && "id" in doc.fields && doc.fields["id"] == JStr("123")
    && "status" in doc.fields && doc.fields["status"] == JStr("active")
  }

  lemma EvaluateField(doc: Json, key: string, path: string)
    requires doc.JObj? && key in doc.fields && doc.fields[key].JStr?
    requires path == "$." + key && '.' !in key && '[' !in key && |key| > 0
    ensures JsonPath.EvaluateJsonPath(Valid(doc), path) == Ok(doc.fields[key].s)
  {
    Text.AppendParts("$.", key);
    assert Text.HasPrefix(path, "$.");
    assert JsonPath.StripRoot(path) == key;
    assert JsonPath.Evaluate(doc, path) == JsonPath.EvaluateStripped(doc, key);
    assert key[0] != '[' by { assert key[0] in key; }
    assert JsonPath.Segment(key) == key;
    assert Text.IndexOf(key, '[') == None;
    assert JsonPath.EvaluateStripped(doc, key) == Ok(doc.fields[key]);
  }

  lemma TestEqualsMismatch(doc: Json)
    requires TestDocument(doc)
    ensures Check(FileParser.Assertion("jsonpath", "$.id", "==", "456"), Valid(doc))
      == CheckResult(false, "FAIL: jsonpath \"$.id\" == \"456\" (actual: \"123\")")
  {
    var a := FileParser.Assertion("jsonpath", "$.id", "==", "456");
    assert "$.id" == "$." + "id";
    EvaluateField(doc, "id", "$.id");
    assert "123" != "456";
    VerdictEqualsMismatch(a);
  }

  lemma VerdictEqualsMismatch(a: FileParser.Assertion)
    requires a == FileParser.Assertion("jsonpath", "$.id", "==", "456")
    ensures Verdict(a, "123", false) == "FAIL: jsonpath \"$.id\" == \"456\" (actual: \"123\")"
  {
    var head := "FAIL" + ": jsonpath \"" + "$.id" + "\" " + "==" + " \"" + "456" + "\"";
    assert head == "FAIL: jsonpath \"$.id\" == \"456\"";
    var tail := " (actual: \"" + "123" + "\")";
    assert tail == " (actual: \"123\")";
  }

  lemma TestNotEqualsMatch(doc: Json)
    requires TestDocument(doc)
    ensures Check(FileParser.Assertion("jsonpath", "$.status", "!=", "inactive"), Valid(doc))
      == CheckResult(true, "PASS: jsonpath \"$.status\" != \"inactive\"")
  {
    var a := FileParser.Assertion("jsonpath", "$.status", "!=", "inactive");
    assert "$.status" == "$." + "status";
    EvaluateField(doc, "status", "$.status");
    assert "active" != "inactive";
    VerdictNotEqualsMatch(a);
  }

  lemma VerdictNotEqualsMatch(a: FileParser.Assertion)
    requires a == FileParser.Assertion("jsonpath", "$.status", "!=", "inactive")
    ensures Verdict(a, "active", true) == "PASS: jsonpath \"$.status\" != \"inactive\""
  {
  }

  lemma TestUnknownOperator(doc: Json)
    requires TestDocument(doc)
    ensures Check(FileParser.Assertion("jsonpath", "$.id", "unknown", "123"), Valid(doc))
      == CheckResult(false, "unknown operator 'unknown'")
  {
    assert "$.id" == "$." + "id";
    EvaluateField(doc, "id", "$.id");
  }

  /** How `$.items[` reads: the root marker goes, the first segment is the whole rest,
      and its bracket sits after `items`, leaving `[` to evaluate. */
  lemma InvalidPathParts()
    ensures JsonPath.StripRoot("$.items[") == "items["
    ensures JsonPath.Segment("items[") == "items["
    ensures Text.IndexOf("items[", '[') == Some(5)
    ensures "items["[..5] == "items" && "items["[5..] == "["
  {
    var p := "items[";
    assert Text.HasPrefix("$.items[", "$.") by {
      assert "$.items["[..2] == "$.";
    }
    assert "$.items["[2..] == p;
    assert '.' !in p by {
      forall j | 0 <= j < |p| ensures p[j] != '.' { }
    }
    assert p[..5] == "items";
    assert '[' !in p[..5];
    Text.IndexOfFirst(p, '[', 5);
  }

  /** `$.items[` on an object with `items` fails at the unclosed bracket. */
  lemma InvalidPathFails(doc: Json)
    requires doc.JObj? && "items" in doc.fields
    ensures JsonPath.Evaluate(doc, "$.items[") == Err(JsonPath.UnclosedIndex("["))
  {
    InvalidPathParts();
    var p := "items[";
    assert p[0] != '[';
    JsonPath.UnfoldIndexedKey(doc, p, 5);
    assert p[5..] + "" == "[";
    JsonPath.UnclosedIndexFails(doc.fields["items"], "");
    assert "[" + "" == "[";
  }

  /** The check of a path that fails to evaluate, with the path error named. */
  lemma CheckPathError(a: FileParser.Assertion, response: Decoded, e: JsonPath.PathError)
    requires a.kind == "jsonpath" && JsonPath.EvaluateJsonPath(response, a.key) == Err(e)
    ensures Check(a, response) == CheckResult(false, "failed to evaluate jsonpath '" + a.key + "': " + JsonPath.ErrorText(e))
  {
  }

  /** The test table's invalid path, on any response object with an `items` field (the
      table's is an array): the path error is reported whatever the operator. */
  lemma TestInvalidJsonPath(doc: Json)
    requires doc.JObj? && "items" in doc.fields
    ensures Check(FileParser.Assertion("jsonpath", "$.items[", "==", "123"), Valid(doc))
      == CheckResult(false, "failed to evaluate jsonpath '$.items[': " + "unclosed array index in path: [")
  {
    var a := FileParser.Assertion("jsonpath", "$.items[", "==", "123");
    var e := JsonPath.UnclosedIndex("[");
    InvalidPathFails(doc);
    CheckPathError(a, Valid(doc), e);
    PathErrorMessage(a.key, JsonPath.ErrorText(e));
  }

  lemma PathErrorMessage(key: string, text: string)
    requires key == "$.items[" && text == "unclosed array index in path: ["
    ensures "failed to evaluate jsonpath '" + key + "': " + text
      == "failed to evaluate jsonpath '$.items[': " + "unclosed array index in path: ["
  {
    assert "failed to evaluate jsonpath '" + key + "': " == "failed to evaluate jsonpath '$.items[': ";
  }

  lemma TestUnknownType(response: Decoded)
    ensures Check(FileParser.Assertion("header", "Content-Type", "==", "application/json"), response)
      == CheckResult(true, "Warning: skipping unknown assertion type 'header'")
  {
  }
}
