/** Splitting a request file into the requests it holds: lines whose trimmed text is
    `---` separate requests, and runs of separators produce no empty request. */
module Sections {
  import Text

  predicate IsSeparator(line: string) {
    Text.TrimSpace(line) == "---"
  }

  /** The section being collected, as a list of zero or one finished sections. */
  function Close(cur: seq<string>): seq<seq<string>> {
    if |cur| == 0 then [] else [cur]
  }

  /** The sections of `lines`, given the lines `cur` already collected into the open section. */
  function Collect(lines: seq<string>, cur: seq<string>): seq<seq<string>>
    decreases |lines|
  {
    if |lines| == 0 then Close(cur)
    else if IsSeparator(lines[0]) then Close(cur) + Collect(lines[1..], [])
    else Collect(lines[1..], cur + [lines[0]])
  }

  /** The sections of a whole file. */
  function Split(lines: seq<string>): seq<seq<string>> {
    Collect(lines, [])
  }

  /** `ParseMultiple`'s scanning loop: separators close the open section if it has lines. */
  method SplitLoop(lines: seq<string>) returns (sections: seq<seq<string>>)
    ensures sections == Split(lines)
  {
    sections := [];
    var cur: seq<string> := [];
    var i := 0;
    while i < |lines|
      invariant 0 <= i <= |lines|
      invariant sections + Collect(lines[i..], cur) == Split(lines)
    {
      CollectStep(lines, i, cur);
      if IsSeparator(lines[i]) {
        Text.AppendAssoc(sections, Close(cur), Collect(lines[i + 1..], []));
        sections := sections + Close(cur);
        cur := [];
      } else {
        cur := cur + [lines[i]];
      }
      i := i + 1;
    }
    assert |lines[i..]| == 0;
    sections := sections + Close(cur);
  }

  lemma CollectStep(lines: seq<string>, i: nat, cur: seq<string>)
    requires i < |lines|
    ensures Collect(lines[i..], cur) ==
      if IsSeparator(lines[i]) then Close(cur) + Collect(lines[i + 1..], [])
      else Collect(lines[i + 1..], cur + [lines[i]])
  {
    assert lines[i..][0] == lines[i];
    assert lines[i..][1..] == lines[i + 1..];
  }

  function Flatten(ss: seq<seq<string>>): seq<string> {
    if |ss| == 0 then [] else ss[0] + Flatten(ss[1..])
  }

  /** The lines that are not separators, in order. */
  function Content(lines: seq<string>): seq<string> {
    if |lines| == 0 then []
    else if IsSeparator(lines[0]) then Content(lines[1..])
    else [lines[0]] + Content(lines[1..])
  }

  /** Where a non-separator line opens a new section: the first line, or one after a separator. */
  function CountStarts(lines: seq<string>, afterSeparator: bool): nat {
    if |lines| == 0 then 0
    else
      (if !IsSeparator(lines[0]) && afterSeparator then 1 else 0)
        + CountStarts(lines[1..], IsSeparator(lines[0]))
  }

  lemma {:induction false} FlattenAppend(a: seq<seq<string>>, b: seq<seq<string>>)
    ensures Flatten(a + b) == Flatten(a) + Flatten(b)
    decreases |a|
  {
    if |a| > 0 {
      Text.HeadTail(a, b);
      FlattenAppend(a[1..], b);
      Text.AppendAssoc(a[0], Flatten(a[1..]), Flatten(b));
    } else {
      Text.EmptyAppend(b);
    }
  }

  lemma FlattenClose(cur: seq<string>)
    ensures Flatten(Close(cur)) == cur
  {
    if |cur| > 0 {
      assert Flatten([cur]) == cur + Flatten([]);
    }
  }

  /** Every section is non-empty and holds no separator. */
  lemma {:induction false} CollectShape(lines: seq<string>, cur: seq<string>)
    requires forall i :: 0 <= i < |cur| ==> !IsSeparator(cur[i])
    ensures forall j :: 0 <= j < |Collect(lines, cur)| ==> |Collect(lines, cur)[j]| > 0
    ensures forall j, i :: 0 <= j < |Collect(lines, cur)| && 0 <= i < |Collect(lines, cur)[j]| ==>
      !IsSeparator(Collect(lines, cur)[j][i])
    decreases |lines|
  {
    if |lines| > 0 {
      if IsSeparator(lines[0]) {
        CollectShape(lines[1..], []);
      } else {
        CollectShape(lines[1..], cur + [lines[0]]);
      }
    }
  }

  /** The sections hold the non-separator lines in order, each exactly once. */
  lemma {:induction false} CollectContent(lines: seq<string>, cur: seq<string>)
    ensures Flatten(Collect(lines, cur)) == cur + Content(lines)
    decreases |lines|
  {
    if |lines| == 0 {
      FlattenClose(cur);
    } else if IsSeparator(lines[0]) {
      CollectContent(lines[1..], []);
      FlattenAppend(Close(cur), Collect(lines[1..], []));
      FlattenClose(cur);
      assert Content(lines) == Content(lines[1..]);
      Text.EmptyAppend(Content(lines[1..]));
    } else {
      CollectContent(lines[1..], cur + [lines[0]]);
      assert Content(lines) == [lines[0]] + Content(lines[1..]);
      Text.AppendAssoc(cur, [lines[0]], Content(lines[1..]));
    }
  }

  /** One section per maximal run of non-separator lines. */
  lemma {:induction false} CollectCount(lines: seq<string>, cur: seq<string>)
    ensures |Collect(lines, cur)| == CountStarts(lines, |cur| == 0) + (if |cur| > 0 then 1 else 0)
    decreases |lines|
  {
    if |lines| > 0 {
      if IsSeparator(lines[0]) {
        CollectCount(lines[1..], []);
      } else {
        CollectCount(lines[1..], cur + [lines[0]]);
      }
    }
  }

  /** For a whole file: sections are non-empty, hold no separator, together hold every other
      line once and in order, and there is one per maximal run. */
  lemma SplitSound(lines: seq<string>)
    ensures forall j :: 0 <= j < |Split(lines)| ==> |Split(lines)[j]| > 0
    ensures forall j, i :: 0 <= j < |Split(lines)| && 0 <= i < |Split(lines)[j]| ==> !IsSeparator(Split(lines)[j][i])
    ensures Flatten(Split(lines)) == Content(lines)
    ensures |Split(lines)| == CountStarts(lines, true)
  {
    CollectShape(lines, []);
    CollectContent(lines, []);
    Text.EmptyAppend(Content(lines));
    CollectCount(lines, []);
  }
}
