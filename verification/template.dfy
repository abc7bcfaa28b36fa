/** `{{name}}` substitution: one `strings.ReplaceAll` per variable, in the order Go's
    map iteration happens to produce. The order is a parameter here; the lemmas say
    when it does not matter. */
module Template {
  import opened Wrappers
  import Text

  /** The text `{{k}}`. */
  function Placeholder(k: string): (p: string)
    ensures |p| == |k| + 4 && p[..2] == "{{" && p[2..|k| + 2] == k && p[|k| + 2..] == "}}"
  {
    "{{" + k + "}}"
  }

  /** `order` lists every variable name exactly once: one possible map iteration order. */
  predicate Enumerates(order: seq<string>, vars: map<string, string>) {
    && (forall i, j :: 0 <= i < j < |order| ==> order[i] != order[j])
    && (forall k :: k in vars ==> k in order)
    && (forall i :: 0 <= i < |order| ==> order[i] in vars)
  }

  /** The `for key, value := range variables` loop, visiting names in `order`. */
  function ReplaceEach(s: string, vars: map<string, string>, order: seq<string>): string
    requires forall k :: k in order ==> k in vars
    decreases |order|
  {
    if |order| == 0 then s
    else ReplaceEach(Text.ReplaceAll(s, Placeholder(order[0]), vars[order[0]]), vars, order[1..])
  }

  /** `Substitute`: an empty map returns the input, otherwise each variable's placeholder
      is replaced everywhere, one variable after another. */
  function Substitute(input: string, vars: map<string, string>, order: seq<string>): string
    requires Enumerates(order, vars)
  {
    if |vars| == 0 then input else ReplaceEach(input, vars, order)
  }

  // ---------------------------------------------------------------------------
  // A reference: simultaneous substitution in one left-to-right scan.

  predicate BraceFree(s: string) {
    '{' !in s && '}' !in s
  }

  /** Every name and every value is free of braces. */
  predicate Braceless(vars: map<string, string>) {
    forall k :: k in vars ==> BraceFree(k) && BraceFree(vars[k])
  }

  /** Length of the longest brace-free prefix. */
  function BraceFreeLength(t: string): (n: nat)
    ensures n <= |t| && BraceFree(t[..n])
    ensures n < |t| ==> t[n] == '{' || t[n] == '}'
  {
    if |t| > 0 && t[0] != '{' && t[0] != '}' then
      var n := 1 + BraceFreeLength(t[1..]);
      assert t[..n] == [t[0]] + t[1..][..n - 1];
      n
    else 0
  }

  /** The name of the placeholder `{{name}}` that `s` starts with, if it starts with one
      whose name has no braces. */
  function NameAt(s: string): (r: Option<string>)
    ensures r.Some? ==> BraceFree(r.value) && Text.HasPrefix(s, Placeholder(r.value))
  {
    if !Text.HasPrefix(s, "{{") then None
    else
      var n := BraceFreeLength(s[2..]);
      if Text.HasPrefix(s[2 + n..], "}}") then
        assert s[..n + 4] == "{{" + s[2..2 + n] + "}}";
        Some(s[2..2 + n])
      else None
  }

  /** A placeholder with a brace-free name is recognised as exactly that name. */
  lemma PlaceholderAt(s: string, a: string)
    requires BraceFree(a) && Text.HasPrefix(s, Placeholder(a))
    ensures NameAt(s) == Some(a)
  {
    assert s[..2] == "{{";
    BraceFreeLengthOf(s[2..], a);
    assert s[2 + |a|..][..2] == "}}";
  }

  lemma {:induction false} BraceFreeLengthOf(t: string, a: string)
    requires BraceFree(a) && |a| < |t| && t[..|a|] == a && t[|a|] == '}'
    ensures BraceFreeLength(t) == |a|
    decreases |a|
  {
    if |a| > 0 {
      assert t[0] == a[0];
      assert t[1..][..|a| - 1] == a[1..];
      BraceFreeLengthOf(t[1..], a[1..]);
    }
  }

  /** Every mapped placeholder replaced by its value and every other character kept,
      reading left to right and never rescanning a value. */
  function SimSub(s: string, vars: map<string, string>): string
    decreases |s|
  {
    if |s| == 0 then ""
    else match NameAt(s)
      case Some(n) =>
        if n in vars then vars[n] + SimSub(s[|n| + 4..], vars) else [s[0]] + SimSub(s[1..], vars)
      case None => [s[0]] + SimSub(s[1..], vars)
  }

  /** Every `{{` the scan meets opens a placeholder whose name has no braces.
      JSON text never contains `{{` outside string literals, so JSON bodies qualify
      as long as their strings do not. */
  predicate WellFormed(s: string)
    decreases |s|
  {
    if |s| == 0 then true
    else match NameAt(s)
      case Some(n) => WellFormed(s[|n| + 4..])
      case None => !Text.HasPrefix(s, "{{") && WellFormed(s[1..])
  }

  /** No `{{` starts before position `k`. */
  predicate NoOpenBefore(s: string, k: nat) {
    k <= |s| && forall i :: 0 <= i < k ==> !Text.HasPrefix(s[i..], "{{")
  }

  lemma NoOpenShift(s: string, k: nat)
    requires k > 0 && NoOpenBefore(s, k)
    ensures NoOpenBefore(s[1..], k - 1)
  {
    forall i | 0 <= i < k - 1 ensures !Text.HasPrefix(s[1..][i..], "{{") {
      assert s[1..][i..] == s[i + 1..];
    }
  }

  /** A brace-free stretch contains no `{{`. */
  lemma BraceFreeNoOpen(v: string, x: string)
    requires BraceFree(v)
    ensures NoOpenBefore(v + x, |v|)
  {
    forall i | 0 <= i < |v| ensures !Text.HasPrefix((v + x)[i..], "{{") {
      assert (v + x)[i] == v[i];
    }
  }

  /** After its first character, a placeholder holds no `{{`. */
  lemma PlaceholderNoOpen(n: string, x: string)
    requires BraceFree(n)
    ensures NoOpenBefore((Placeholder(n) + x)[1..], |n| + 3)
  {
    var s := (Placeholder(n) + x)[1..];
    forall i | 0 <= i < |n| + 3 ensures !Text.HasPrefix(s[i..], "{{") {
      if i == 0 {
        assert s[1] == (if |n| > 0 then n[0] else '}');
      } else {
        assert s[i] == (if i <= |n| then n[i - 1] else '}');
      }
    }
  }

  /** `ReplaceAll` copies a stretch without `{{` unchanged. */
  lemma {:induction false} ReplaceSkip(s: string, k: nat, a: string, v: string)
    requires NoOpenBefore(s, k)
    ensures Text.ReplaceAll(s, Placeholder(a), v) == s[..k] + Text.ReplaceAll(s[k..], Placeholder(a), v)
    decreases k
  {
    if k > 0 {
      assert !Text.HasPrefix(s, Placeholder(a)) by {
        assert !Text.HasPrefix(s[0..], "{{");
        Text.DropNone(s);
      }
      NoOpenShift(s, k);
      ReplaceSkip(s[1..], k - 1, a, v);
      Text.SliceSplit(s, k);
      Text.AppendAssoc([s[0]], s[1..][..k - 1], Text.ReplaceAll(s[k..], Placeholder(a), v));
    } else {
      Text.DropNone(s);
      Text.EmptyAppend(Text.ReplaceAll(s, Placeholder(a), v));
    }
  }

  /** Where no `{{` starts, the scan copies one character. */
  lemma SimSubStep(s: string, vars: map<string, string>)
    requires |s| > 0 && !Text.HasPrefix(s, "{{")
    ensures SimSub(s, vars) == [s[0]] + SimSub(s[1..], vars)
    ensures WellFormed(s) == WellFormed(s[1..])
  {
    assert NameAt(s) == None;
  }

  /** Simultaneous substitution copies a stretch without `{{` unchanged. */
  lemma {:induction false} SimSubSkip(s: string, k: nat, vars: map<string, string>)
    requires NoOpenBefore(s, k)
    ensures SimSub(s, vars) == s[..k] + SimSub(s[k..], vars)
    decreases k
  {
    if k > 0 {
      assert !Text.HasPrefix(s[0..], "{{");
      Text.DropNone(s);
      SimSubStep(s, vars);
      NoOpenShift(s, k);
      SimSubSkip(s[1..], k - 1, vars);
      Text.SliceSplit(s, k);
      Text.AppendAssoc([s[0]], s[1..][..k - 1], SimSub(s[k..], vars));
    } else {
      Text.DropNone(s);
      Text.EmptyAppend(SimSub(s, vars));
    }
  }

  /** Text without `{{` in front of well-formed text is well formed. */
  lemma {:induction false} WellFormedSkip(s: string, k: nat)
    requires NoOpenBefore(s, k) && WellFormed(s[k..])
    ensures WellFormed(s)
    decreases k
  {
    if k > 0 {
      assert !Text.HasPrefix(s[0..], "{{");
      Text.DropNone(s);
      SimSubStep(s, map[]);
      NoOpenShift(s, k);
      Text.SliceSplit(s, k);
      WellFormedSkip(s[1..], k - 1);
    } else {
      Text.DropNone(s);
    }
  }

  /** The scan at a placeholder: its value when mapped, else one character. */
  lemma SimSubNamed(s: string, n: string, vars: map<string, string>)
    requires NameAt(s) == Some(n)
    ensures SimSub(s, vars) ==
      if n in vars then vars[n] + SimSub(s[|n| + 4..], vars) else [s[0]] + SimSub(s[1..], vars)
  {
  }

  /** An unmapped placeholder is copied as it is. */
  lemma UnmappedPlaceholder(n: string, y: string, vars: map<string, string>)
    requires BraceFree(n) && n !in vars
    ensures SimSub(Placeholder(n) + y, vars) == Placeholder(n) + SimSub(y, vars)
  {
    var p := Placeholder(n);
    var s := p + y;
    PlaceholderAt(s, n);
    SimSubNamed(s, n, vars);
    PlaceholderNoOpen(n, y);
    SimSubSkip(s[1..], |n| + 3, vars);
    Text.HeadTail(p, y);
    Text.AppendParts(p[1..], y);
    Text.AppendAssoc([p[0]], p[1..], SimSub(y, vars));
  }

  /** A placeholder followed by well-formed text is well formed. */
  lemma PlaceholderWellFormed(n: string, y: string)
    requires BraceFree(n) && WellFormed(y)
    ensures WellFormed(Placeholder(n) + y)
  {
    PlaceholderAt(Placeholder(n) + y, n);
    assert (Placeholder(n) + y)[|n| + 4..] == y;
  }

  /** Where the pattern does not start the text, `ReplaceAll` copies one character. */
  lemma ReplaceStep(s: string, pat: string, rep: string)
    requires |pat| > 0 && |s| > 0 && !Text.HasPrefix(s, pat)
    ensures Text.ReplaceAll(s, pat, rep) == [s[0]] + Text.ReplaceAll(s[1..], pat, rep)
  {
  }

  /** The first character `ReplaceAll` emits, when the text does not start with the pattern. */
  lemma ReplaceFirstChar(s: string, a: string, v: string)
    requires |s| > 0 && s[0] != '{'
    ensures Text.ReplaceAll(s, Placeholder(a), v) == [s[0]] + Text.ReplaceAll(s[1..], Placeholder(a), v)
  {
  }

  /** Replacing one variable `a` everywhere keeps the text well formed, and simultaneous
      substitution of the remaining variables then gives what simultaneous substitution
      of all of them gives. */
  lemma {:induction false} ReplaceOne(s: string, vars: map<string, string>, a: string)
    requires a in vars && Braceless(vars) && WellFormed(s)
    ensures WellFormed(Text.ReplaceAll(s, Placeholder(a), vars[a]))
    ensures SimSub(Text.ReplaceAll(s, Placeholder(a), vars[a]), vars - {a}) == SimSub(s, vars)
    decreases |s|
  {
    if |s| == 0 {
      return;
    }
    match NameAt(s)
    case Some(n) =>
      ReplaceOne(s[|n| + 4..], vars, a);
      if n == a {
        ReplaceAtOwn(s, vars, a);
      } else {
        ReplaceAtOther(s, vars, a, n);
      }
    case None =>
      ReplaceOne(s[1..], vars, a);
      ReplaceAtPlain(s, vars, a);
  }

  /** `ReplaceOne` where `s` starts with `{{a}}` itself. */
  lemma ReplaceAtOwn(s: string, vars: map<string, string>, a: string)
    requires a in vars && Braceless(vars) && NameAt(s) == Some(a)
    requires var y := Text.ReplaceAll(s[|a| + 4..], Placeholder(a), vars[a]);
      WellFormed(y) && SimSub(y, vars - {a}) == SimSub(s[|a| + 4..], vars)
    ensures WellFormed(Text.ReplaceAll(s, Placeholder(a), vars[a]))
    ensures SimSub(Text.ReplaceAll(s, Placeholder(a), vars[a]), vars - {a}) == SimSub(s, vars)
  {
    var v := vars[a];
    var y := Text.ReplaceAll(s[|a| + 4..], Placeholder(a), v);
    assert Text.ReplaceAll(s, Placeholder(a), v) == v + y;
    SimSubNamed(s, a, vars);
    BraceFreeNoOpen(v, y);
    SimSubSkip(v + y, |v|, vars - {a});
    WellFormedSkip(v + y, |v|);
    assert (v + y)[..|v|] == v && (v + y)[|v|..] == y;
  }

  /** `ReplaceOne` where `s` starts with the placeholder of another name `n`. */
  lemma ReplaceAtOther(s: string, vars: map<string, string>, a: string, n: string)
    requires a in vars && Braceless(vars) && NameAt(s) == Some(n) && n != a
    requires var y := Text.ReplaceAll(s[|n| + 4..], Placeholder(a), vars[a]);
      WellFormed(y) && SimSub(y, vars - {a}) == SimSub(s[|n| + 4..], vars)
    ensures WellFormed(Text.ReplaceAll(s, Placeholder(a), vars[a]))
    ensures SimSub(Text.ReplaceAll(s, Placeholder(a), vars[a]), vars - {a}) == SimSub(s, vars)
  {
    var v := vars[a];
    var tail := s[|n| + 4..];
    var y := Text.ReplaceAll(tail, Placeholder(a), v);
    var r := Text.ReplaceAll(s, Placeholder(a), v);
    PlaceholderSplit(s, n);
    PlaceholderSkip(s, a, v, n);
    assert r == Placeholder(n) + y;
    PlaceholderWellFormed(n, y);
    if n in vars {
      PlaceholderAt(r, n);
      Text.AppendParts(Placeholder(n), y);
      SimSubNamed(r, n, vars - {a});
      SimSubNamed(s, n, vars);
    } else {
      UnmappedPlaceholder(n, y, vars - {a});
      UnmappedPlaceholder(n, tail, vars);
    }
  }

  /** `ReplaceAll` of `{{a}}` passes over the placeholder of another name. */
  lemma PlaceholderSkip(s: string, a: string, v: string, n: string)
    requires BraceFree(a) && NameAt(s) == Some(n) && n != a
    ensures Text.ReplaceAll(s, Placeholder(a), v)
      == Placeholder(n) + Text.ReplaceAll(s[|n| + 4..], Placeholder(a), v)
  {
    var tail := s[|n| + 4..];
    var p := Placeholder(n);
    PlaceholderSplit(s, n);
    assert !Text.HasPrefix(s, Placeholder(a)) by {
      if Text.HasPrefix(s, Placeholder(a)) { PlaceholderAt(s, a); }
    }
    ReplaceStep(s, Placeholder(a), v);
    PlaceholderNoOpen(n, tail);
    ReplaceSkip(s[1..], |n| + 3, a, v);
    Text.HeadTail(p, tail);
    Text.AppendParts(p[1..], tail);
    var y := Text.ReplaceAll(tail, Placeholder(a), v);
    Text.AppendAssoc([p[0]], p[1..], y);
  }

  /** Text that starts with a placeholder is that placeholder and what follows it. */
  lemma PlaceholderSplit(s: string, n: string)
    requires Text.HasPrefix(s, Placeholder(n))
    ensures s == Placeholder(n) + s[|n| + 4..]
  {
    Text.AppendParts(s[..|n| + 4], s[|n| + 4..]);
    assert s == s[..|n| + 4] + s[|n| + 4..];
  }

  /** Replacing `{{a}}` with a brace-free value does not create `{{` at the front. */
  lemma ReplaceKeepsNoOpen(s: string, a: string, v: string)
    requires |s| > 0 && !Text.HasPrefix(s, "{{")
    ensures !Text.HasPrefix(Text.ReplaceAll(s, Placeholder(a), v), "{{")
  {
    var r := Text.ReplaceAll(s, Placeholder(a), v);
    assert !Text.HasPrefix(s, Placeholder(a));
    ReplaceStep(s, Placeholder(a), v);
    if s[0] == '{' && |s| > 1 {
      assert s[1] != '{' by { assert s[..2] != "{{"; }
      ReplaceStep(s[1..], Placeholder(a), v);
      assert r[1] == s[1];
    }
  }

  /** `ReplaceOne` where no `{{` starts `s`. */
  lemma ReplaceAtPlain(s: string, vars: map<string, string>, a: string)
    requires a in vars && Braceless(vars) && |s| > 0 && NameAt(s) == None && WellFormed(s)
    requires var y := Text.ReplaceAll(s[1..], Placeholder(a), vars[a]);
      WellFormed(y) && SimSub(y, vars - {a}) == SimSub(s[1..], vars)
    ensures WellFormed(Text.ReplaceAll(s, Placeholder(a), vars[a]))
    ensures SimSub(Text.ReplaceAll(s, Placeholder(a), vars[a]), vars - {a}) == SimSub(s, vars)
  {
    var v := vars[a];
    var y := Text.ReplaceAll(s[1..], Placeholder(a), v);
    var r := Text.ReplaceAll(s, Placeholder(a), v);
    assert !Text.HasPrefix(s, "{{");
    assert !Text.HasPrefix(s, Placeholder(a));
    ReplaceStep(s, Placeholder(a), v);
    ReplaceKeepsNoOpen(s, a, v);
    SimSubStep(r, vars - {a});
    SimSubStep(s, vars);
    assert r[1..] == y;
  }

  /** Simultaneous substitution with no variables is the identity. */
  lemma {:induction false} SimSubEmpty(s: string)
    ensures SimSub(s, map[]) == s
    decreases |s|
  {
    if |s| > 0 {
      SimSubEmpty(s[1..]);
      assert s == [s[0]] + s[1..];
    }
  }

  /** The loop only reads the variables it visits. */
  lemma {:induction false} ReplaceEachAgree(s: string, m1: map<string, string>, m2: map<string, string>, order: seq<string>)
    requires forall k :: k in order ==> k in m1 && k in m2 && m1[k] == m2[k]
    ensures ReplaceEach(s, m1, order) == ReplaceEach(s, m2, order)
    decreases |order|
  {
    if |order| > 0 {
      ReplaceEachAgree(Text.ReplaceAll(s, Placeholder(order[0]), m1[order[0]]), m1, m2, order[1..]);
    }
  }

  /** Whatever the iteration order, the loop performs simultaneous substitution, provided
      names and values have no braces and the input is well formed. */
  lemma {:induction false} ReplaceEachIsSimSub(s: string, vars: map<string, string>, order: seq<string>)
    requires Enumerates(order, vars) && Braceless(vars) && WellFormed(s)
    ensures ReplaceEach(s, vars, order) == SimSub(s, vars)
    decreases |order|
  {
    if |order| == 0 {
      assert vars == map[];
      SimSubEmpty(s);
    } else {
      var a := order[0];
      var rest := vars - {a};
      var s1 := Text.ReplaceAll(s, Placeholder(a), vars[a]);
      ReplaceOne(s, vars, a);
      assert Enumerates(order[1..], rest) by {
        forall k ensures k in rest <==> k in order[1..] {
          if k in order && k != a {
            var i :| 0 <= i < |order| && order[i] == k;
            assert i > 0 && order[1..][i - 1] == k;
          }
          if k in order[1..] {
            var i :| 0 <= i < |order[1..]| && order[1..][i] == k;
            assert order[i + 1] == k && k != a;
          }
        }
      }
      ReplaceEachIsSimSub(s1, rest, order[1..]);
      ReplaceEachAgree(s1, vars, rest, order[1..]);
    }
  }

  /** `Substitute` is simultaneous substitution, for every iteration order. */
  lemma SubstituteIsSimSub(s: string, vars: map<string, string>, order: seq<string>)
    requires Enumerates(order, vars) && Braceless(vars) && WellFormed(s)
    ensures Substitute(s, vars, order) == SimSub(s, vars)
  {
    if |vars| == 0 {
      assert vars == map[];
      SimSubEmpty(s);
    } else {
      ReplaceEachIsSimSub(s, vars, order);
    }
  }

  /** Hence the result does not depend on Go's map iteration order. */
  lemma OrderIndependent(s: string, vars: map<string, string>, o1: seq<string>, o2: seq<string>)
    requires Enumerates(o1, vars) && Enumerates(o2, vars) && Braceless(vars) && WellFormed(s)
    ensures Substitute(s, vars, o1) == Substitute(s, vars, o2)
  {
    SubstituteIsSimSub(s, vars, o1);
    SubstituteIsSimSub(s, vars, o2);
  }

  /** Text containing no placeholder of a mapped name comes back unchanged, whatever the order. */
  lemma {:induction false} NoPlaceholderUnchanged(s: string, vars: map<string, string>, order: seq<string>)
    requires Enumerates(order, vars)
    requires forall k :: k in vars ==> !Text.Contains(s, Placeholder(k))
    ensures Substitute(s, vars, order) == s
  {
    if |vars| > 0 {
      ReplaceEachAbsent(s, vars, order);
    }
  }

  lemma {:induction false} ReplaceEachAbsent(s: string, vars: map<string, string>, order: seq<string>)
    requires forall k :: k in order ==> k in vars
    requires forall k :: k in vars ==> !Text.Contains(s, Placeholder(k))
    ensures ReplaceEach(s, vars, order) == s
    decreases |order|
  {
    if |order| > 0 {
      Text.ReplaceAllAbsent(s, Placeholder(order[0]), vars[order[0]]);
      ReplaceEachAbsent(s, vars, order[1..]);
    }
  }

  /** Brace-free names and values alone do not make the order irrelevant: in
      `{{{{a}}b}}`, replacing `a` by the empty text first creates a `{{b}}` that
      the later pass for `b` replaces, while the other order leaves it. */
  lemma OrderMattersForIllFormedText()
    ensures var vars := map["a" := "", "b" := "X"];
      && Braceless(vars) && Enumerates(["a", "b"], vars) && Enumerates(["b", "a"], vars)
      && !WellFormed("{{{{a}}b}}")
      && Substitute("{{{{a}}b}}", vars, ["a", "b"]) == "X"
      && Substitute("{{{{a}}b}}", vars, ["b", "a"]) == "{{b}}"
  {
    ExampleMap();
    ExampleNotWellFormed();
    ExampleOrders();
  }

  lemma ExampleMap()
    ensures var vars := map["a" := "", "b" := "X"];
      Braceless(vars) && Enumerates(["a", "b"], vars) && Enumerates(["b", "a"], vars) && |vars| == 2
  {
    var vars := map["a" := "", "b" := "X"];
    assert vars.Keys == {"a", "b"};
  }

  /** The two visiting orders of the example, pass by pass. */
  lemma ExampleOrders()
    ensures var vars := map["a" := "", "b" := "X"];
      && ReplaceEach("{{{{a}}b}}", vars, ["a", "b"]) == "X"
      && ReplaceEach("{{{{a}}b}}", vars, ["b", "a"]) == "{{b}}"
  {
    var vars := map["a" := "", "b" := "X"];
    ExampleFirstPass();
    ExampleSecondPass();
    PlaceholderExamples();
    assert ReplaceEach("{{{{a}}b}}", vars, ["a", "b"]) == "X" by {
      EachStep("{{{{a}}b}}", vars, ["a", "b"], "{{b}}");
      assert ["a", "b"][1..] == ["b"];
      EachStep("{{b}}", vars, ["b"], "X");
      assert ["b"][1..] == [];
    }
    assert ReplaceEach("{{{{a}}b}}", vars, ["b", "a"]) == "{{b}}" by {
      EachStep("{{{{a}}b}}", vars, ["b", "a"], "{{{{a}}b}}");
      assert ["b", "a"][1..] == ["a"];
      EachStep("{{{{a}}b}}", vars, ["a"], "{{b}}");
      assert ["a"][1..] == [];
    }
  }

  lemma PlaceholderExamples()
    ensures Placeholder("a") == "{{a}}" && Placeholder("b") == "{{b}}"
  {
  }

  /** One turn of the substitution loop, with the turn's result named. */
  lemma EachStep(s: string, vars: map<string, string>, order: seq<string>, t: string)
    requires |order| > 0 && forall k :: k in order ==> k in vars
    requires Text.ReplaceAll(s, Placeholder(order[0]), vars[order[0]]) == t
    ensures ReplaceEach(s, vars, order) == ReplaceEach(t, vars, order[1..])
  {
  }

  lemma ExampleFirstPass()
    ensures Text.ReplaceAll("{{{{a}}b}}", "{{a}}", "") == "{{b}}"
  {
    var pat := "{{a}}";
    var t := "b}}";
    ExampleFirstPassText(pat, t);
    ReplaceTail(t, pat, "");
    ReplaceAfterTwo('{', '{', pat, t);
  }

  /** The example text is two braces, the placeholder of `a`, then `b}}`, and neither
      the text nor its tail after one brace starts with that placeholder. */
  lemma ExampleFirstPassText(pat: string, t: string)
    requires pat == "{{a}}" && t == "b}}"
    ensures "{{{{a}}b}}" == ['{'] + (['{'] + (pat + t))
    ensures "{{b}}" == ['{'] + (['{'] + t)
    ensures !Text.HasPrefix(['{'] + (['{'] + (pat + t)), pat)
    ensures !Text.HasPrefix(['{'] + (pat + t), pat)
  {
    Differs(['{'] + (['{'] + (pat + t)), pat, 2);
    Differs(['{'] + (pat + t), pat, 2);
  }

  /** Two leading characters that do not start the pattern are kept, the pattern after
      them is replaced by nothing, and the rest is replaced as usual. */
  lemma ReplaceAfterTwo(c0: char, c1: char, pat: string, t: string)
    requires |pat| > 0
    requires !Text.HasPrefix([c0] + ([c1] + (pat + t)), pat)
    requires !Text.HasPrefix([c1] + (pat + t), pat)
    ensures Text.ReplaceAll([c0] + ([c1] + (pat + t)), pat, "") == [c0] + ([c1] + Text.ReplaceAll(t, pat, ""))
  {
    var s2 := pat + t;
    var s1 := [c1] + s2;
    var s0 := [c0] + s1;
    Text.ConsParts(c0, s1);
    Text.ConsParts(c1, s2);
    ReplaceStep(s0, pat, "");
    ReplaceStep(s1, pat, "");
    Text.AppendParts(pat, t);
    ReplaceMatch(s2, pat, "");
    Text.EmptyAppend(Text.ReplaceAll(t, pat, ""));
  }

  lemma ReplaceMatch(s: string, pat: string, rep: string)
    requires |pat| > 0 && Text.HasPrefix(s, pat)
    ensures Text.ReplaceAll(s, pat, rep) == rep + Text.ReplaceAll(s[|pat|..], pat, rep)
  {
  }

  /** The tail `b}}` of the example holds no `{`, so it is left alone. */
  lemma ReplaceTail(s: string, pat: string, rep: string)
    requires s == "b}}" && pat == "{{a}}"
    ensures Text.ReplaceAll(s, pat, rep) == s
  {
    Differs(s, pat, 0);
    ReplaceStep(s, pat, rep);
    Differs(s[1..], pat, 0);
    ReplaceStep(s[1..], pat, rep);
    Differs(s[2..], pat, 0);
    ReplaceStep(s[2..], pat, rep);
    assert s[1..][1..] == s[2..] && s[2..][1..] == [];
  }

  lemma ExampleSecondPass()
    ensures Text.ReplaceAll("{{b}}", "{{b}}", "X") == "X"
    ensures Text.ReplaceAll("{{b}}", "{{a}}", "") == "{{b}}"
    ensures Text.ReplaceAll("{{{{a}}b}}", "{{b}}", "X") == "{{{{a}}b}}"
  {
    ExampleKeepB();
    ExampleNoB();
  }

  lemma ExampleKeepB()
    ensures Text.ReplaceAll("{{b}}", "{{a}}", "") == "{{b}}"
  {
    var t := "{{b}}";
    Differs(t, "{{a}}", 2);
    Differs(t[1..], "{{a}}", 1);
    Differs(t[2..], "{{a}}", 0);
    Differs(t[3..], "{{a}}", 0);
    Differs(t[4..], "{{a}}", 0);
    ReplaceAbsentLiteral(t, "{{a}}", "");
  }

  lemma ExampleNoB()
    ensures Text.ReplaceAll("{{{{a}}b}}", "{{b}}", "X") == "{{{{a}}b}}"
  {
    var s := "{{{{a}}b}}";
    var pat := "{{b}}";
    Differs(s, pat, 2);
    Differs(s[1..], pat, 2);
    Differs(s[2..], pat, 2);
    Differs(s[3..], pat, 1);
    Differs(s[4..], pat, 0);
    Differs(s[5..], pat, 0);
    Differs(s[6..], pat, 0);
    Differs(s[7..], pat, 0);
    Differs(s[8..], pat, 0);
    Differs(s[9..], pat, 0);
    ReplaceAbsentLiteral(s, pat, "X");
  }

  /** A text that differs from the pattern at some position does not start with it. */
  lemma Differs(s: string, pat: string, j: nat)
    requires j < |pat| && (j >= |s| || s[j] != pat[j])
    ensures !Text.HasPrefix(s, pat)
  {
    if |pat| <= |s| {
      assert s[..|pat|][j] == s[j];
    }
  }

  /** `ReplaceAll` leaves text alone when the pattern starts nowhere in it. */
  lemma {:induction false} ReplaceAbsentLiteral(s: string, pat: string, rep: string)
    requires |pat| > 0 && forall i :: 0 <= i < |s| ==> !Text.HasPrefix(s[i..], pat)
    ensures Text.ReplaceAll(s, pat, rep) == s
    decreases |s|
  {
    if |s| > 0 {
      assert s[0..] == s;
      forall i | 0 <= i < |s| - 1 ensures !Text.HasPrefix(s[1..][i..], pat) {
        assert s[1..][i..] == s[i + 1..];
      }
      ReplaceAbsentLiteral(s[1..], pat, rep);
    }
  }

  lemma ExampleNotWellFormed()
    ensures !WellFormed("{{{{a}}b}}")
  {
    var s := "{{{{a}}b}}";
    assert BraceFreeLength(s[2..]) == 0;
    assert NameAt(s) == None;
  }
}
