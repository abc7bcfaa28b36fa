/** The `.grpc` request-file parser: a file's lines are split into sections at `---`
    lines, and each section is read by a line state machine into a `RequestFile`. */
module FileParser {
  import opened Wrappers
  import Text
  import Numbers
  import Sections

  /** One check on the response: `<kind> "<key>" <op> <value>`. */
  datatype Assertion = Assertion(kind: string, key: string, op: string, value: string)

  /** A parsed request. `timeout` is a `time.Duration`, in nanoseconds. */
  datatype RequestFile = RequestFile(
    name: string,
    address: string,
    service: string,
    methodName: string,
    protocol: string,
    timeout: int,
    headers: map<string, string>,
    body: string,
    captures: map<string, string>,
    asserts: seq<Assertion>)

  /** `time.ParseDuration`: the duration in nanoseconds, or the error's text. */
  type DurationParser = string -> Result<int, string>

  const DefaultProtocol: string := "grpc-web"
  const Second: int := 1_000_000_000
  const DefaultTimeout: int := 30 * Second
  const DefaultBody: string := "{}"

  const MissingAddress: string := "missing required 'GRPC <address>' line"
  const MissingService: string := "missing required 'Service:' field"
  const MissingMethod: string := "missing required 'Method:' field"
  const NoRequests: string := "no requests found in file"

  /** The part of the section being read: the header (`""` in the source), the JSON
      body, or one of the two marked blocks. */
  datatype Mode = Header | Body | Captures | Asserts {
    predicate IsBlock() {
      this == Captures || this == Asserts
    }
  }

  datatype State = State(req: RequestFile, mode: Mode, bodyLines: seq<string>)

  function Initial(): State {
    State(RequestFile("", "", "", "", DefaultProtocol, DefaultTimeout, map[], "", map[], []), Header, [])
  }

  // ----- Line classes -----

  predicate IsBlank(line: string) {
    Text.TrimSpace(line) == ""
  }

  predicate IsComment(line: string) {
    Text.HasPrefix(Text.TrimSpace(line), "#")
  }

  /** The text of a comment: one `#` removed, then trimmed. */
  function CommentText(line: string): string {
    Text.TrimSpace(Text.TrimPrefix(Text.TrimSpace(line), "#"))
  }

  predicate IsCapturesMarker(line: string) {
    Text.TrimSpace(line) == "[Captures]"
  }

  predicate IsAssertsMarker(line: string) {
    Text.TrimSpace(line) == "[Asserts]"
  }

  predicate IsMarker(line: string) {
    IsCapturesMarker(line) || IsAssertsMarker(line)
  }

  predicate IsBodyStart(line: string) {
    Text.HasPrefix(Text.TrimSpace(line), "{")
  }

  /** A line that ends the header part of a section. */
  predicate LeavesHeader(line: string) {
    IsMarker(line) || IsBodyStart(line)
  }

  /** A header line that says something: neither blank nor a comment. */
  predicate IsDirective(line: string) {
    !IsBlank(line) && !IsComment(line)
  }

  /** The name after reading `line`: only the first comment with non-empty text sets it. */
  function NameAfter(name: string, line: string): string {
    if IsComment(line) && name == "" then CommentText(line) else name
  }

  /** The key and value of a `key: value` line, split at the first colon and trimmed. */
  function Entry(line: string): (r: Option<(string, string)>)
    ensures r.None? <==> ':' !in line
  {
    match Text.SplitFirst(line, ':')
    case None => None
    case Some((k, v)) => Some((Text.TrimSpace(k), Text.TrimSpace(v)))
  }

  /** The setting a header directive carries; `GRPC ` lines carry the address instead. */
  function Setting(line: string): Option<(string, string)> {
    if Text.HasPrefix(line, "GRPC ") then None else Entry(line)
  }

  /** The address a `GRPC ` line names (the prefix is matched against the untrimmed line). */
  function AddressText(line: string): string {
    Text.TrimSpace(Text.TrimPrefix(line, "GRPC"))
  }

  predicate IsReserved(key: string) {
    key == "Service" || key == "Method" || key == "Protocol" || key == "Timeout"
  }

  function TimeoutError(value: string, e: string): string {
    "invalid timeout duration " + Text.Quote(value) + ": " + e
  }

  // ----- Assertion lines -----

  /** The text before the first space, and the trimmed text from that space on. */
  function SplitAtSpace(s: string): (r: Option<(string, string)>)
    ensures r.None? <==> ' ' !in s
    ensures r.Some? ==> ' ' !in r.value.0 && Text.Trimmed(r.value.1)
  {
    match Text.IndexOf(s, ' ')
    case None => None
    case Some(i) => Some((s[..i], Text.TrimSpace(s[i..])))
  }

  /** A text opened by a quote, up to the next quote, and the trimmed text after it. */
  function SplitQuoted(s: string): (r: Option<(string, string)>)
    ensures r.Some? ==> Text.HasPrefix(s, "\"") && '"' !in r.value.0 && Text.Trimmed(r.value.1)
  {
    if !Text.HasPrefix(s, "\"") then None
    else
      match Text.IndexOf(s[1..], '"')
      case None => None
      case Some(i) => Some((s[1..][..i], Text.TrimSpace(s[1..][i + 1..])))
  }

  /** The expected value: a quoted text up to the next quote, which is empty when the
      quote is never closed, or else the raw text. */
  function ValueText(s: string): (r: string)
    ensures Text.HasPrefix(s, "\"") ==> '"' !in r
    ensures !Text.HasPrefix(s, "\"") ==> r == s
  {
    if Text.HasPrefix(s, "\"") then
      match Text.IndexOf(s[1..], '"')
      case None => ""
      case Some(i) => s[1..][..i]
    else s
  }

  /** An assertion line (already trimmed): at least four fields, then a kind up to the
      first space, a quoted key, an operator up to the next space and the value. */
  function ParseAssertion(trimmed: string): (r: Option<Assertion>)
    ensures r.Some? ==> |Text.Fields(trimmed)| >= 4
    ensures r.Some? ==> ' ' !in r.value.kind && '"' !in r.value.key && ' ' !in r.value.op
  {
    if |Text.Fields(trimmed)| < 4 then None
    else
      match SplitAtSpace(trimmed)
      case None => None
      case Some((kind, afterKind)) =>
        match SplitQuoted(afterKind)
        case None => None
        case Some((key, afterKey)) =>
          match SplitAtSpace(afterKey)
          case None => None
          case Some((op, afterOp)) => Some(Assertion(kind, key, op, ValueText(afterOp)))
  }

  /** Four space-separated parts, none starting with white space, make at least four fields. */
  lemma AssertionFields(kind: string, key: string, op: string, value: string)
    requires |kind| > 0 && Text.NoSpace(kind) && |op| > 0 && Text.NoSpace(op)
    requires |key| > 0 && !Text.IsSpace(key[0]) && |value| > 0 && !Text.IsSpace(value[0])
    ensures |Text.Fields(kind + " " + key + " " + op + " " + value)| >= 4
  {
    var tail := op + " " + value;
    var mid := key + " " + tail;
    var x2 := kind + " " + key;
    Text.AppendAssoc(x2 + " " + op, " ", value);
    Text.AppendAssoc(x2 + " ", op, " " + value);
    Text.AppendAssoc(op, " ", value);
    Text.AppendAssoc(x2, " ", tail);
    Text.AppendAssoc(kind + " ", key, " " + tail);
    Text.AppendAssoc(key, " ", tail);
    assert " " == [' '];
    Text.FieldsJoin(kind, ' ', mid);
    Text.FieldsJoin(key, ' ', tail);
    Text.FieldsJoin(op, ' ', value);
    Text.FieldsNonEmpty(key);
    Text.FieldsNonEmpty(value);
  }

  lemma SplitAtSpaceOf(w: string, rest: string)
    requires ' ' !in w && Text.Trimmed(rest)
    ensures SplitAtSpace(w + " " + rest) == Some((w, rest))
  {
    var s := w + " " + rest;
    assert s[..|w|] == w;
    Text.IndexOfFirst(s, ' ', |w|);
    assert s[|w|..] == " " + rest;
    Text.TrimSpaceAfterSpace(" ", rest);
  }

  lemma SplitQuotedOf(key: string, rest: string)
    requires '"' !in key && Text.Trimmed(rest)
    ensures SplitQuoted("\"" + key + "\" " + rest) == Some((key, rest))
  {
    var s := "\"" + key + "\" " + rest;
    var u := "\" " + rest;
    var t := key + u;
    Text.AppendAssoc("\"", key, "\" ");
    Text.AppendAssoc("\"" + key, "\" ", rest);
    Text.AppendAssoc("\"", key, u);
    Text.AppendParts("\"", t);
    Text.AppendParts(key, u);
    Text.HeadTail("\" ", rest);
    assert "\" "[1..] == " ";
    Text.SliceSplit(t[|key|..], 1);
    assert t[|key|..][1..] == t[|key| + 1..];
    Text.IndexOfFirst(t, '"', |key|);
    Text.TrimSpaceAfterSpace(" ", rest);
  }

  lemma ValueQuoted(v: string, tail: string)
    requires '"' !in v
    ensures ValueText("\"" + v + "\"" + tail) == v
  {
    var s := "\"" + v + "\"" + tail;
    var t := s[1..];
    assert t == v + "\"" + tail;
    assert t[..|v|] == v;
    Text.IndexOfFirst(t, '"', |v|);
  }

  lemma ValueUnclosed(v: string)
    requires '"' !in v
    ensures ValueText("\"" + v) == ""
  {
    assert ("\"" + v)[1..] == v;
  }

  /** `ParseAssertion` in terms of its three splits. */
  lemma ParseAssertionUnfold(line: string, kind: string, afterKind: string, key: string, afterKey: string,
                             op: string, afterOp: string)
    requires |Text.Fields(line)| >= 4
    requires SplitAtSpace(line) == Some((kind, afterKind))
    requires SplitQuoted(afterKind) == Some((key, afterKey))
    requires SplitAtSpace(afterKey) == Some((op, afterOp))
    ensures ParseAssertion(line) == Some(Assertion(kind, key, op, ValueText(afterOp)))
  {
  }

  /** An assertion line with a quoted key reads back its kind, key and operator; the value
      is what `ValueText` makes of the rest. */
  lemma ParseAssertionParts(kind: string, key: string, op: string, rest: string)
    requires |kind| > 0 && Text.NoSpace(kind) && '"' !in key && |op| > 0 && Text.NoSpace(op)
    requires |rest| > 0 && Text.Trimmed(rest)
    ensures ParseAssertion(kind + " \"" + key + "\" " + op + " " + rest)
      == Some(Assertion(kind, key, op, ValueText(rest)))
  {
    var line := kind + " \"" + key + "\" " + op + " " + rest;
    var quotedKey := "\"" + key + "\"";
    var afterKey := op + " " + rest;
    var afterKind := "\"" + key + "\" " + afterKey;
    assert line == kind + " " + quotedKey + " " + op + " " + rest;
    assert line == kind + " " + afterKind;
    AssertionFields(kind, quotedKey, op, rest);
    SplitAtSpaceOf(kind, afterKind);
    SplitQuotedOf(key, afterKey);
    SplitAtSpaceOf(op, rest);
    ParseAssertionUnfold(line, kind, afterKind, key, afterKey, op, rest);
  }

  /** `kind "key" op "value"` reads back as written. */
  lemma ParseAssertionQuoted(a: Assertion)
    requires |a.kind| > 0 && Text.NoSpace(a.kind) && '"' !in a.key && |a.op| > 0 && Text.NoSpace(a.op)
    requires '"' !in a.value
    ensures ParseAssertion(a.kind + " \"" + a.key + "\" " + a.op + " \"" + a.value + "\"") == Some(a)
  {
    var rest := "\"" + a.value + "\"";
    assert a.kind + " \"" + a.key + "\" " + a.op + " \"" + a.value + "\""
      == a.kind + " \"" + a.key + "\" " + a.op + " " + rest;
    ParseAssertionParts(a.kind, a.key, a.op, rest);
    assert rest == "\"" + a.value + "\"" + "";
    ValueQuoted(a.value, "");
  }

  /** An unquoted value is taken verbatim, inner spaces included. */
  lemma ParseAssertionRaw(a: Assertion)
    requires |a.kind| > 0 && Text.NoSpace(a.kind) && '"' !in a.key && |a.op| > 0 && Text.NoSpace(a.op)
    requires |a.value| > 0 && a.value[0] != '"' && Text.Trimmed(a.value)
    ensures ParseAssertion(a.kind + " \"" + a.key + "\" " + a.op + " " + a.value) == Some(a)
  {
    assert !Text.HasPrefix(a.value, "\"") by {
      assert a.value[..1] == [a.value[0]];
    }
    ParseAssertionParts(a.kind, a.key, a.op, a.value);
  }

  /** A quoted value that is never closed is recorded as the empty value. */
  lemma ParseAssertionUnclosed(a: Assertion, v: string)
    requires |a.kind| > 0 && Text.NoSpace(a.kind) && '"' !in a.key && |a.op| > 0 && Text.NoSpace(a.op)
    requires '"' !in v && (|v| > 0 ==> !Text.IsSpace(v[|v| - 1]))
    ensures ParseAssertion(a.kind + " \"" + a.key + "\" " + a.op + " \"" + v) == Some(a.(value := ""))
  {
    var rest := "\"" + v;
    assert a.kind + " \"" + a.key + "\" " + a.op + " \"" + v
      == a.kind + " \"" + a.key + "\" " + a.op + " " + rest;
    ParseAssertionParts(a.kind, a.key, a.op, rest);
    ValueUnclosed(v);
  }

  // ----- The line state machine -----

  function CaptureLine(req: RequestFile, line: string): (r: RequestFile)
    ensures SameHeader(req, r) && r.name == req.name && r.asserts == req.asserts
  {
    if IsBlank(line) then req
    else
      match Entry(line)
      case None => req
      case Some((k, v)) => req.(captures := req.captures[k := v])
  }

  function AssertLine(req: RequestFile, line: string): (r: RequestFile)
    ensures SameHeader(req, r) && r.name == req.name && r.captures == req.captures
  {
    if IsBlank(line) then req
    else
      match ParseAssertion(Text.TrimSpace(line))
      case None => req
      case Some(a) => req.(asserts := req.asserts + [a])
  }

  /** A header-mode line that is not a comment, a marker or a body start. Lines that
      match nothing are ignored. */
  function DirectiveLine(pd: DurationParser, st: State, line: string): (r: Result<State, string>)
    ensures r.Ok? ==> r.value.mode == st.mode && r.value.bodyLines == st.bodyLines
    ensures r.Ok? ==> r.value.req.name == st.req.name && r.value.req.captures == st.req.captures
    ensures r.Ok? ==> r.value.req.asserts == st.req.asserts
  {
    if Text.HasPrefix(line, "GRPC ") then Ok(st.(req := st.req.(address := AddressText(line))))
    else
      match Entry(line)
      case None => Ok(st)
      case Some((key, value)) =>
        if key == "Service" then Ok(st.(req := st.req.(service := value)))
        else if key == "Method" then Ok(st.(req := st.req.(methodName := value)))
        else if key == "Protocol" then Ok(st.(req := st.req.(protocol := value)))
        else if key == "Timeout" then
          match pd(value)
          case Err(e) => Err(TimeoutError(value, e))
          case Ok(d) => Ok(st.(req := st.req.(timeout := d)))
        else Ok(st.(req := st.req.(headers := st.req.headers[key := value])))
  }

  /** The fields only header-mode lines set. */
  predicate SameHeader(a: RequestFile, b: RequestFile) {
    && a.address == b.address && a.service == b.service && a.methodName == b.methodName
    && a.protocol == b.protocol && a.timeout == b.timeout && a.headers == b.headers
  }

  /** One iteration of `parseContent`'s loop. */
  function Step(pd: DurationParser, st: State, line: string): (r: Result<State, string>)
    ensures r.Err? ==> st.mode == Header
    ensures st.mode.IsBlock() ==> r.Ok? && r.value.mode.IsBlock()
    ensures r.Ok? && st.mode != Header ==> SameHeader(st.req, r.value.req)
    ensures r.Ok? ==> r.value.req.name == NameAfter(st.req.name, line)
    ensures r.Ok? ==>
      || r.value.bodyLines == st.bodyLines
      || (r.value.bodyLines == st.bodyLines + [line] && r.value.mode == Body && !IsComment(line) && !IsMarker(line))
  {
    if st.mode == Header && IsBlank(line) then Ok(st)
    else if IsComment(line) then Ok(st.(req := st.req.(name := NameAfter(st.req.name, line))))
    else if IsCapturesMarker(line) then Ok(st.(mode := Captures))
    else if IsAssertsMarker(line) then Ok(st.(mode := Asserts))
    else ContentLine(pd, st, line)
  }

  /** A line that is neither a comment, a marker nor a blank header line, read in the
      current mode. */
  function ContentLine(pd: DurationParser, st: State, line: string): (r: Result<State, string>)
    ensures r.Err? ==> st.mode == Header
    ensures st.mode.IsBlock() ==> r.Ok? && r.value.mode == st.mode
    ensures r.Ok? && st.mode != Header ==> SameHeader(st.req, r.value.req)
    ensures r.Ok? ==> r.value.req.name == st.req.name
    ensures r.Ok? ==>
      || r.value.bodyLines == st.bodyLines
      || (r.value.bodyLines == st.bodyLines + [line] && r.value.mode == Body)
  {
    match st.mode
    case Captures => Ok(st.(req := CaptureLine(st.req, line)))
    case Asserts => Ok(st.(req := AssertLine(st.req, line)))
    case Body => Ok(st.(bodyLines := st.bodyLines + [line]))
    case Header =>
      if IsBodyStart(line) then Ok(st.(mode := Body, bodyLines := st.bodyLines + [line]))
      else DirectiveLine(pd, st, line)
  }

  /** The loop over a section's lines; the first error stops it. */
  function Scan(pd: DurationParser, st: State, lines: seq<string>): Result<State, string>
    decreases |lines|
  {
    if |lines| == 0 then Ok(st)
    else
      var next :- Step(pd, st, lines[0]);
      Scan(pd, next, lines[1..])
  }

  /** The body text (the collected lines joined by newlines, or `{}`) and the check of the
      required fields, in the order address, service, method. */
  function Finish(st: State): (r: Result<RequestFile, string>)
    ensures r.Ok? ==> r.value.address != "" && r.value.service != "" && r.value.methodName != ""
    ensures r.Ok? ==> r.value == st.req.(body := BodyText(st.bodyLines))
    ensures r.Err? ==> r.error in {MissingAddress, MissingService, MissingMethod}
  {
    var req := st.req.(body := BodyText(st.bodyLines));
    if req.address == "" then Err(MissingAddress)
    else if req.service == "" then Err(MissingService)
    else if req.methodName == "" then Err(MissingMethod)
    else Ok(req)
  }

  function BodyText(bodyLines: seq<string>): string {
    if |bodyLines| > 0 then Text.Join(bodyLines, "\n") else DefaultBody
  }

  /** `parseContent`: one section's lines into a request. */
  function ParseContent(pd: DurationParser, lines: seq<string>): Result<RequestFile, string> {
    var st :- Scan(pd, Initial(), lines);
    Finish(st)
  }

  function RequestError(i: nat, e: string): string {
    "request " + Numbers.IntToString(i + 1) + ": " + e
  }

  /** The sections from index `i` on, each read by `parse`, in order; the first failing
      one stops the loop and its error is prefixed with its 1-based number. */
  function ParseFrom(parse: seq<string> -> Result<RequestFile, string>, sections: seq<seq<string>>, i: nat)
    : (r: Result<seq<RequestFile>, string>)
    requires i <= |sections|
    ensures r.Ok? ==> |r.value| == |sections| - i
    ensures r.Ok? ==> forall j :: i <= j < |sections| ==> parse(sections[j]) == Ok(r.value[j - i])
    decreases |sections| - i
  {
    if i == |sections| then Ok([])
    else
      match parse(sections[i])
      case Err(e) => Err(RequestError(i, e))
      case Ok(req) =>
        var rest :- ParseFrom(parse, sections, i + 1);
        Ok([req] + rest)
  }

  /** Section `j` is the first one from `i` on that fails. */
  predicate FirstFailure(parse: seq<string> -> Result<RequestFile, string>, sections: seq<seq<string>>, i: nat, j: int) {
    && i <= j < |sections|
    && parse(sections[j]).Err?
    && forall k :: i <= k < j ==> parse(sections[k]).Ok?
  }

  /** The loop succeeds exactly when every section parses; otherwise its error is the
      numbered error of the first section that fails. */
  lemma {:induction false} ParseFromOutcome(parse: seq<string> -> Result<RequestFile, string>, sections: seq<seq<string>>, i: nat)
    requires i <= |sections|
    ensures ParseFrom(parse, sections, i).Ok? <==> forall j :: i <= j < |sections| ==> parse(sections[j]).Ok?
    ensures ParseFrom(parse, sections, i).Err? ==>
      exists j :: FirstFailure(parse, sections, i, j)
        && ParseFrom(parse, sections, i).error == RequestError(j, parse(sections[j]).error)
    decreases |sections| - i
  {
    if i < |sections| {
      var c := parse(sections[i]);
      if c.Err? {
        assert FirstFailure(parse, sections, i, i);
      } else {
        ParseFromOutcome(parse, sections, i + 1);
        var rest := ParseFrom(parse, sections, i + 1);
        if rest.Err? {
          var j :| FirstFailure(parse, sections, i + 1, j)
            && rest.error == RequestError(j, parse(sections[j]).error);
          assert FirstFailure(parse, sections, i, j);
        }
      }
    }
  }

  /** `parseContent` with a fixed duration parser, as the reader of each section. */
  function Reader(pd: DurationParser): seq<string> -> Result<RequestFile, string> {
    lines => ParseContent(pd, lines)
  }

  /** `ParseMultiple` on the lines of a file. */
  function ParseMultiple(pd: DurationParser, lines: seq<string>): Result<seq<RequestFile>, string> {
    var sections := Sections.Split(lines);
    if |sections| == 0 then Err(NoRequests) else ParseFrom(Reader(pd), sections, 0)
  }

  /** `Parse`: the first request of a file. */
  function Parse(pd: DurationParser, lines: seq<string>): Result<RequestFile, string> {
    var requests :- ParseMultiple(pd, lines);
    if |requests| == 0 then Err(NoRequests) else Ok(requests[0])
  }

  // ----- Reading a section part by part -----

  /** The lines that are not comments, in order. */
  function NonComments(lines: seq<string>): seq<string> {
    if |lines| == 0 then []
    else (if IsComment(lines[0]) then [] else [lines[0]]) + NonComments(lines[1..])
  }

  /** The header lines that are neither blank nor comments, in order. */
  function Directives(lines: seq<string>): seq<string> {
    if |lines| == 0 then []
    else (if IsDirective(lines[0]) then [lines[0]] else []) + Directives(lines[1..])
  }

  /** The index of the first marker line, or the length when there is none. */
  function FirstMarker(lines: seq<string>): (m: nat)
    ensures m <= |lines|
  {
    if |lines| == 0 || IsMarker(lines[0]) then 0 else 1 + FirstMarker(lines[1..])
  }

  /** The index of the first line that ends the header part: a marker or a body start. */
  function HeaderEnd(lines: seq<string>): (e: nat)
    ensures e <= FirstMarker(lines)
  {
    if |lines| == 0 || LeavesHeader(lines[0]) then 0 else 1 + HeaderEnd(lines[1..])
  }

  /** The lines of the body part: from the header's end up to the first marker. */
  function BodyPart(lines: seq<string>): seq<string> {
    lines[HeaderEnd(lines)..FirstMarker(lines)]
  }

  /** The text of the first comment whose text is not empty, or `""`. */
  function FirstName(lines: seq<string>): string {
    if |lines| == 0 then ""
    else if IsComment(lines[0]) && CommentText(lines[0]) != "" then CommentText(lines[0])
    else FirstName(lines[1..])
  }

  /** The address of the last `GRPC ` line among `ds`, or `a` when there is none. */
  function AddressOf(ds: seq<string>, a: string): string
    decreases |ds|
  {
    if |ds| == 0 then a else AddressOf(ds[1..], AddressStep(ds[0], a))
  }

  function AddressStep(line: string, a: string): string {
    if Text.HasPrefix(line, "GRPC ") then AddressText(line) else a
  }

  /** The value of the last setting of `key` among `ds`, or `v` when there is none. */
  function SettingOf(ds: seq<string>, key: string, v: string): string
    decreases |ds|
  {
    if |ds| == 0 then v else SettingOf(ds[1..], key, SettingStep(ds[0], key, v))
  }

  function SettingStep(line: string, key: string, v: string): string {
    var s := Setting(line);
    if s.Some? && s.value.0 == key then s.value.1 else v
  }

  /** Headers: every setting whose key is not one of the four reserved ones. */
  function HeadersOf(ds: seq<string>, h: map<string, string>): map<string, string>
    decreases |ds|
  {
    if |ds| == 0 then h else HeadersOf(ds[1..], HeadersStep(ds[0], h))
  }

  function HeadersStep(line: string, h: map<string, string>): map<string, string> {
    var s := Setting(line);
    if s.Some? && !IsReserved(s.value.0) then h[s.value.0 := s.value.1] else h
  }

  /** The duration of the last `Timeout` setting, or the error for the first value
      `pd` rejects. */
  function TimeoutOf(pd: DurationParser, ds: seq<string>, t: int): Result<int, string>
    decreases |ds|
  {
    if |ds| == 0 then Ok(t)
    else
      var s := Setting(ds[0]);
      if s.Some? && s.value.0 == "Timeout" then
        match pd(s.value.1)
        case Err(e) => Err(TimeoutError(s.value.1, e))
        case Ok(d) => TimeoutOf(pd, ds[1..], d)
      else TimeoutOf(pd, ds[1..], t)
  }

  /** `after` holds what the directives `ds` set on top of `before`. */
  predicate HeaderFrom(pd: DurationParser, before: RequestFile, ds: seq<string>, after: RequestFile) {
    && after.address == AddressOf(ds, before.address)
    && after.service == SettingOf(ds, "Service", before.service)
    && after.methodName == SettingOf(ds, "Method", before.methodName)
    && after.protocol == SettingOf(ds, "Protocol", before.protocol)
    && TimeoutOf(pd, ds, before.timeout) == Ok(after.timeout)
    && after.headers == HeadersOf(ds, before.headers)
  }

  /** A body start is neither blank nor a comment. */
  lemma BodyStartIsNoComment(line: string)
    requires IsBodyStart(line)
    ensures !IsComment(line) && !IsBlank(line)
  {
    var t := Text.TrimSpace(line);
    assert t[..1] == "{";
    assert t[0] == '{';
  }

  /** A marker line switches to its block, in every mode. */
  lemma MarkerStep(pd: DurationParser, st: State, line: string)
    requires IsMarker(line)
    ensures Step(pd, st, line) == Ok(st.(mode := if IsCapturesMarker(line) then Captures else Asserts))
  {
    assert !IsComment(line) by {
      assert Text.TrimSpace(line)[..1] == "[";
    }
  }

  /** In the body, a line that is not a marker is kept unless it is a comment. */
  lemma BodyStep(pd: DurationParser, st: State, line: string)
    requires st.mode == Body && !IsMarker(line)
    ensures Step(pd, st, line) == Ok(st.(req := st.req.(name := NameAfter(st.req.name, line)),
      bodyLines := st.bodyLines + (if IsComment(line) then [] else [line])))
  {
    if IsComment(line) {
      assert st.bodyLines + [] == st.bodyLines;
    } else {
      assert st.req.(name := NameAfter(st.req.name, line)) == st.req;
    }
  }

  /** The first body line of a section switches to the body and is kept. */
  lemma BodyStartStep(pd: DurationParser, st: State, line: string)
    requires st.mode == Header && IsBodyStart(line) && !IsMarker(line)
    ensures Step(pd, st, line) == Ok(st.(mode := Body, bodyLines := st.bodyLines + [line]))
  {
    BodyStartIsNoComment(line);
  }

  /** One step of `Scan`. */
  lemma ScanStep(pd: DurationParser, st: State, lines: seq<string>, next: State)
    requires |lines| > 0 && Step(pd, st, lines[0]) == Ok(next)
    ensures Scan(pd, st, lines) == Scan(pd, next, lines[1..])
  {
  }

  /** Once in a marked block, reading never fails, never leaves the blocks and changes
      neither the header fields nor the body. */
  lemma {:induction false} BlockPhase(pd: DurationParser, st: State, lines: seq<string>)
    requires st.mode.IsBlock()
    ensures Scan(pd, st, lines).Ok?
    ensures var r := Scan(pd, st, lines).value;
      r.mode.IsBlock() && SameHeader(st.req, r.req) && r.bodyLines == st.bodyLines
    decreases |lines|
  {
    if |lines| > 0 {
      var next := Step(pd, st, lines[0]).value;
      BlockPhase(pd, next, lines[1..]);
    }
  }

  /** In the body, every line up to the first marker is kept except comments; the header
      fields do not change. */
  lemma {:induction false} BodyPhase(pd: DurationParser, st: State, lines: seq<string>)
    requires st.mode == Body
    ensures Scan(pd, st, lines).Ok?
    ensures var r := Scan(pd, st, lines).value;
      SameHeader(st.req, r.req) && r.bodyLines == st.bodyLines + NonComments(lines[..FirstMarker(lines)])
    decreases |lines|
  {
    if |lines| == 0 {
      assert st.bodyLines + [] == st.bodyLines;
    } else if IsMarker(lines[0]) {
      MarkerStep(pd, st, lines[0]);
      var next := st.(mode := if IsCapturesMarker(lines[0]) then Captures else Asserts);
      ScanStep(pd, st, lines, next);
      BlockPhase(pd, next, lines[1..]);
      assert lines[..FirstMarker(lines)] == [];
      assert st.bodyLines + [] == st.bodyLines;
    } else {
      var rest := lines[1..];
      var kept := if IsComment(lines[0]) then [] else [lines[0]];
      BodyStep(pd, st, lines[0]);
      var next := st.(req := st.req.(name := NameAfter(st.req.name, lines[0])), bodyLines := st.bodyLines + kept);
      ScanStep(pd, st, lines, next);
      BodyPhase(pd, next, rest);
      NonCommentsPrefix(lines);
      var tail := NonComments(rest[..FirstMarker(rest)]);
      Text.AppendAssoc(st.bodyLines, kept, tail);
    }
  }

  /** The kept lines before the first marker, one line at a time. */
  lemma NonCommentsPrefix(lines: seq<string>)
    requires |lines| > 0 && !IsMarker(lines[0])
    ensures NonComments(lines[..FirstMarker(lines)])
      == (if IsComment(lines[0]) then [] else [lines[0]]) + NonComments(lines[1..][..FirstMarker(lines[1..])])
  {
    var m := FirstMarker(lines[1..]);
    assert FirstMarker(lines) == 1 + m;
    Text.PrefixParts(lines, 1 + m);
  }

  /** At the line that ends the header part: a marker goes to a block, a body start
      begins the body. */
  lemma AfterHeader(pd: DurationParser, st: State, lines: seq<string>)
    requires st.mode == Header && |lines| > 0 && LeavesHeader(lines[0])
    ensures Scan(pd, st, lines).Ok?
    ensures var r := Scan(pd, st, lines).value;
      SameHeader(st.req, r.req) && r.bodyLines == st.bodyLines + NonComments(lines[..FirstMarker(lines)])
  {
    var rest := lines[1..];
    if IsMarker(lines[0]) {
      MarkerStep(pd, st, lines[0]);
      var next := st.(mode := if IsCapturesMarker(lines[0]) then Captures else Asserts);
      ScanStep(pd, st, lines, next);
      BlockPhase(pd, next, rest);
      assert lines[..FirstMarker(lines)] == [];
      assert st.bodyLines + [] == st.bodyLines;
    } else {
      BodyStartStep(pd, st, lines[0]);
      BodyStartIsNoComment(lines[0]);
      var next := st.(mode := Body, bodyLines := st.bodyLines + [lines[0]]);
      ScanStep(pd, st, lines, next);
      BodyPhase(pd, next, rest);
      NonCommentsPrefix(lines);
      var tail := NonComments(rest[..FirstMarker(rest)]);
      Text.AppendAssoc(st.bodyLines, [lines[0]], tail);
    }
  }

  /** A header line before the header's end either is a directive or only touches the name. */
  lemma HeaderStep(pd: DurationParser, st: State, line: string)
    requires st.mode == Header && !LeavesHeader(line)
    ensures IsDirective(line) ==> Step(pd, st, line) == DirectiveLine(pd, st, line)
    ensures !IsDirective(line) ==> Step(pd, st, line) == Ok(st.(req := st.req.(name := NameAfter(st.req.name, line))))
  {
  }

  /** What a directive does to the header fields, in terms of the one-line updates the
      reference descriptions use. */
  lemma DirectiveTimeout(pd: DurationParser, st: State, line: string)
    ensures var r := DirectiveLine(pd, st, line);
      var s := Setting(line);
      && (r.Err? <==> s.Some? && s.value.0 == "Timeout" && pd(s.value.1).Err?)
      && (r.Err? ==> r.error == TimeoutError(s.value.1, pd(s.value.1).error))
      && (r.Ok? ==> r.value.req.timeout == if s.Some? && s.value.0 == "Timeout" then pd(s.value.1).value else st.req.timeout)
  {
    if Text.HasPrefix(line, "GRPC ") {
      assert Setting(line).None?;
    } else if Entry(line).None? {
      assert Setting(line).None?;
    } else {
      var key := Entry(line).value.0;
      assert Setting(line) == Entry(line);
      if key == "Timeout" {
        assert IsReserved(key);
      } else if IsReserved(key) {
        assert key != "Timeout";
      } else {
        assert !IsReserved(key);
      }
    }
  }

  /** A header directive sets the field its key names, the address for a `GRPC ` line,
      or a header for any other key. */
  lemma DirectiveEffect(pd: DurationParser, st: State, line: string)
    ensures var r := DirectiveLine(pd, st, line);
      && (r.Ok? ==> r.value.req.address == AddressStep(line, st.req.address))
      && (r.Ok? ==> r.value.req.service == SettingStep(line, "Service", st.req.service))
      && (r.Ok? ==> r.value.req.methodName == SettingStep(line, "Method", st.req.methodName))
      && (r.Ok? ==> r.value.req.protocol == SettingStep(line, "Protocol", st.req.protocol))
      && (r.Ok? ==> r.value.req.headers == HeadersStep(line, st.req.headers))
  {
    if Text.HasPrefix(line, "GRPC ") {
      DirectiveAddress(pd, st, line);
    } else if Entry(line).None? {
      assert DirectiveLine(pd, st, line) == Ok(st);
      assert Setting(line).None?;
    } else if IsReserved(Entry(line).value.0) {
      DirectiveReserved(pd, st, line);
    } else {
      DirectiveHeader(pd, st, line);
    }
  }

  lemma DirectiveAddress(pd: DurationParser, st: State, line: string)
    requires Text.HasPrefix(line, "GRPC ")
    ensures var r := DirectiveLine(pd, st, line);
      && (r.Ok? ==> r.value.req.address == AddressStep(line, st.req.address))
      && (r.Ok? ==> r.value.req.service == SettingStep(line, "Service", st.req.service))
      && (r.Ok? ==> r.value.req.methodName == SettingStep(line, "Method", st.req.methodName))
      && (r.Ok? ==> r.value.req.protocol == SettingStep(line, "Protocol", st.req.protocol))
      && (r.Ok? ==> r.value.req.headers == HeadersStep(line, st.req.headers))
  {
    assert DirectiveLine(pd, st, line) == Ok(st.(req := st.req.(address := AddressText(line))));
    assert Setting(line).None?;
  }

  lemma DirectiveReserved(pd: DurationParser, st: State, line: string)
    requires !Text.HasPrefix(line, "GRPC ") && Entry(line).Some? && IsReserved(Entry(line).value.0)
    ensures var r := DirectiveLine(pd, st, line);
      && (r.Ok? ==> r.value.req.address == AddressStep(line, st.req.address))
      && (r.Ok? ==> r.value.req.service == SettingStep(line, "Service", st.req.service))
      && (r.Ok? ==> r.value.req.methodName == SettingStep(line, "Method", st.req.methodName))
      && (r.Ok? ==> r.value.req.protocol == SettingStep(line, "Protocol", st.req.protocol))
      && (r.Ok? ==> r.value.req.headers == HeadersStep(line, st.req.headers))
  {
    var key := Entry(line).value.0;
    var value := Entry(line).value.1;
    assert Setting(line) == Some((key, value));
    DirectiveKey(pd, st, line, key, value);
  }

  /** The four reserved keys are distinct. */
  lemma ReservedDistinct()
    ensures "Service" != "Method" && "Service" != "Protocol" && "Service" != "Timeout"
    ensures "Method" != "Protocol" && "Method" != "Timeout" && "Protocol" != "Timeout"
  {
    assert "Service"[0] != "Timeout"[0];
  }

  lemma DirectiveKey(pd: DurationParser, st: State, line: string, key: string, value: string)
    requires !Text.HasPrefix(line, "GRPC ") && Entry(line) == Some((key, value)) && Setting(line) == Some((key, value))
    requires IsReserved(key)
    ensures var r := DirectiveLine(pd, st, line);
      && (r.Ok? ==> r.value.req.address == AddressStep(line, st.req.address))
      && (r.Ok? ==> r.value.req.service == SettingStep(line, "Service", st.req.service))
      && (r.Ok? ==> r.value.req.methodName == SettingStep(line, "Method", st.req.methodName))
      && (r.Ok? ==> r.value.req.protocol == SettingStep(line, "Protocol", st.req.protocol))
      && (r.Ok? ==> r.value.req.headers == HeadersStep(line, st.req.headers))
  {
    if key == "Service" {
      DirectiveService(pd, st, line, key, value);
    } else if key == "Method" {
      DirectiveMethod(pd, st, line, key, value);
    } else if key == "Protocol" {
      DirectiveProtocol(pd, st, line, key, value);
    } else {
      DirectiveTimeoutKey(pd, st, line, key, value);
    }
  }

  lemma DirectiveService(pd: DurationParser, st: State, line: string, key: string, value: string)
    requires !Text.HasPrefix(line, "GRPC ") && Entry(line) == Some((key, value)) && Setting(line) == Some((key, value))
    requires key == "Service"
    ensures var r := DirectiveLine(pd, st, line);
      && (r.Ok? ==> r.value.req.address == AddressStep(line, st.req.address))
      && (r.Ok? ==> r.value.req.service == SettingStep(line, "Service", st.req.service))
      && (r.Ok? ==> r.value.req.methodName == SettingStep(line, "Method", st.req.methodName))
      && (r.Ok? ==> r.value.req.protocol == SettingStep(line, "Protocol", st.req.protocol))
      && (r.Ok? ==> r.value.req.headers == HeadersStep(line, st.req.headers))
  {
    ReservedDistinct();
    assert DirectiveLine(pd, st, line) == Ok(st.(req := st.req.(service := value)));
  }

  lemma DirectiveMethod(pd: DurationParser, st: State, line: string, key: string, value: string)
    requires !Text.HasPrefix(line, "GRPC ") && Entry(line) == Some((key, value)) && Setting(line) == Some((key, value))
    requires key == "Method"
    ensures var r := DirectiveLine(pd, st, line);
      && (r.Ok? ==> r.value.req.address == AddressStep(line, st.req.address))
      && (r.Ok? ==> r.value.req.service == SettingStep(line, "Service", st.req.service))
      && (r.Ok? ==> r.value.req.methodName == SettingStep(line, "Method", st.req.methodName))
      && (r.Ok? ==> r.value.req.protocol == SettingStep(line, "Protocol", st.req.protocol))
      && (r.Ok? ==> r.value.req.headers == HeadersStep(line, st.req.headers))
  {
    ReservedDistinct();
    assert DirectiveLine(pd, st, line) == Ok(st.(req := st.req.(methodName := value)));
  }

  lemma DirectiveProtocol(pd: DurationParser, st: State, line: string, key: string, value: string)
    requires !Text.HasPrefix(line, "GRPC ") && Entry(line) == Some((key, value)) && Setting(line) == Some((key, value))
    requires key == "Protocol"
    ensures var r := DirectiveLine(pd, st, line);
      && (r.Ok? ==> r.value.req.address == AddressStep(line, st.req.address))
      && (r.Ok? ==> r.value.req.service == SettingStep(line, "Service", st.req.service))
      && (r.Ok? ==> r.value.req.methodName == SettingStep(line, "Method", st.req.methodName))
      && (r.Ok? ==> r.value.req.protocol == SettingStep(line, "Protocol", st.req.protocol))
      && (r.Ok? ==> r.value.req.headers == HeadersStep(line, st.req.headers))
  {
    ReservedDistinct();
    assert DirectiveLine(pd, st, line) == Ok(st.(req := st.req.(protocol := value)));
  }

  lemma DirectiveTimeoutKey(pd: DurationParser, st: State, line: string, key: string, value: string)
    requires !Text.HasPrefix(line, "GRPC ") && Entry(line) == Some((key, value)) && Setting(line) == Some((key, value))
    requires key == "Timeout"
    ensures var r := DirectiveLine(pd, st, line);
      && (r.Ok? ==> r.value.req.address == AddressStep(line, st.req.address))
      && (r.Ok? ==> r.value.req.service == SettingStep(line, "Service", st.req.service))
      && (r.Ok? ==> r.value.req.methodName == SettingStep(line, "Method", st.req.methodName))
      && (r.Ok? ==> r.value.req.protocol == SettingStep(line, "Protocol", st.req.protocol))
      && (r.Ok? ==> r.value.req.headers == HeadersStep(line, st.req.headers))
  {
    ReservedDistinct();
    assert AddressStep(line, st.req.address) == st.req.address;
    assert SettingStep(line, "Service", st.req.service) == st.req.service;
    assert SettingStep(line, "Method", st.req.methodName) == st.req.methodName;
    assert SettingStep(line, "Protocol", st.req.protocol) == st.req.protocol;
    assert HeadersStep(line, st.req.headers) == st.req.headers;
    if pd(value).Ok? {
      assert DirectiveLine(pd, st, line) == Ok(st.(req := st.req.(timeout := pd(value).value)));
    }
  }



  lemma DirectiveHeader(pd: DurationParser, st: State, line: string)
    requires !Text.HasPrefix(line, "GRPC ") && Entry(line).Some? && !IsReserved(Entry(line).value.0)
    ensures var r := DirectiveLine(pd, st, line);
      && (r.Ok? ==> r.value.req.address == AddressStep(line, st.req.address))
      && (r.Ok? ==> r.value.req.service == SettingStep(line, "Service", st.req.service))
      && (r.Ok? ==> r.value.req.methodName == SettingStep(line, "Method", st.req.methodName))
      && (r.Ok? ==> r.value.req.protocol == SettingStep(line, "Protocol", st.req.protocol))
      && (r.Ok? ==> r.value.req.headers == HeadersStep(line, st.req.headers))
  {
    var key := Entry(line).value.0;
    var value := Entry(line).value.1;
    assert Setting(line) == Some((key, value));
    assert DirectiveLine(pd, st, line) == Ok(st.(req := st.req.(headers := st.req.headers[key := value])));
  }


  /** Reading the directives of a header part one at a time. */
  lemma DirectivesCons(pd: DurationParser, line: string, ds: seq<string>, before: RequestFile)
    ensures TimeoutOf(pd, [line] + ds, before.timeout) ==
      var s := Setting(line);
      if s.Some? && s.value.0 == "Timeout" then
        if pd(s.value.1).Err? then Err(TimeoutError(s.value.1, pd(s.value.1).error))
        else TimeoutOf(pd, ds, pd(s.value.1).value)
      else TimeoutOf(pd, ds, before.timeout)
    ensures && AddressOf([line] + ds, before.address) == AddressOf(ds, AddressStep(line, before.address))
      && SettingOf([line] + ds, "Service", before.service) == SettingOf(ds, "Service", SettingStep(line, "Service", before.service))
      && SettingOf([line] + ds, "Method", before.methodName) == SettingOf(ds, "Method", SettingStep(line, "Method", before.methodName))
      && SettingOf([line] + ds, "Protocol", before.protocol) == SettingOf(ds, "Protocol", SettingStep(line, "Protocol", before.protocol))
      && HeadersOf([line] + ds, before.headers) == HeadersOf(ds, HeadersStep(line, before.headers))
  {
    Text.ConsParts(line, ds);
  }

  /** The header part of `lines` is its first line and the header part of the rest. */
  lemma HeaderPartCons(lines: seq<string>)
    requires |lines| > 0 && !LeavesHeader(lines[0])
    ensures Directives(lines[..HeaderEnd(lines)])
      == (if IsDirective(lines[0]) then [lines[0]] else []) + Directives(lines[1..][..HeaderEnd(lines[1..])])
    ensures BodyPart(lines) == BodyPart(lines[1..])
  {
    var rest := lines[1..];
    var e := HeaderEnd(lines);
    HeaderEndCons(lines);
    Text.PrefixParts(lines, e);
    var h := HeaderEnd(rest);
    assert lines[..e][1..] == rest[..h];
    DirectivesUnfold(lines[..e]);
    assert lines[..e][0] == lines[0];
    BodyPartCons(lines);
  }

  lemma DirectivesUnfold(lines: seq<string>)
    requires |lines| > 0
    ensures Directives(lines) == (if IsDirective(lines[0]) then [lines[0]] else []) + Directives(lines[1..])
  {
  }

  lemma BodyPartCons(lines: seq<string>)
    requires |lines| > 0 && !LeavesHeader(lines[0])
    ensures BodyPart(lines) == BodyPart(lines[1..])
  {
    var rest := lines[1..];
    HeaderEndCons(lines);
    Text.SliceShiftTo(lines, HeaderEnd(lines), FirstMarker(lines), HeaderEnd(rest), FirstMarker(rest));
  }

  lemma HeaderEndCons(lines: seq<string>)
    requires |lines| > 0 && !LeavesHeader(lines[0])
    ensures HeaderEnd(lines) == 1 + HeaderEnd(lines[1..])
    ensures FirstMarker(lines) == 1 + FirstMarker(lines[1..])
  {
  }


  /** The header part: its directives set the header fields, last one winning, and the
      first rejected timeout is the only way reading a section fails. */
  lemma {:induction false} HeaderPhase(pd: DurationParser, st: State, lines: seq<string>)
    requires st.mode == Header
    ensures var ds := Directives(lines[..HeaderEnd(lines)]);
      var r := Scan(pd, st, lines);
      && (r.Ok? <==> TimeoutOf(pd, ds, st.req.timeout).Ok?)
      && (r.Err? ==> TimeoutOf(pd, ds, st.req.timeout) == Err(r.error))
      && (r.Ok? ==> HeaderFrom(pd, st.req, ds, r.value.req))
      && (r.Ok? ==> r.value.bodyLines == st.bodyLines + NonComments(BodyPart(lines)))
    decreases |lines|
  {
    if |lines| == 0 {
      Text.EmptyAppend(st.bodyLines);
      assert st.bodyLines + [] == st.bodyLines;
    } else if LeavesHeader(lines[0]) {
      AfterHeader(pd, st, lines);
      assert lines[..HeaderEnd(lines)] == [];
    } else {
      var rest := lines[1..];
      var ds := Directives(rest[..HeaderEnd(rest)]);
      HeaderPartCons(lines);
      HeaderStep(pd, st, lines[0]);
      if IsDirective(lines[0]) {
        Text.ConsParts(lines[0], ds);
        DirectivesCons(pd, lines[0], ds, st.req);
        DirectiveTimeout(pd, st, lines[0]);
        DirectiveEffect(pd, st, lines[0]);
        var r := DirectiveLine(pd, st, lines[0]);
        if r.Ok? {
          ScanStep(pd, st, lines, r.value);
          HeaderPhase(pd, r.value, rest);
        }
      } else {
        Text.EmptyAppend(ds);
        var next := st.(req := st.req.(name := NameAfter(st.req.name, lines[0])));
        ScanStep(pd, st, lines, next);
        HeaderPhase(pd, next, rest);
      }
    }
  }

  /** The name is the text of the first comment that has any, in whatever part it stands. */
  lemma {:induction false} NameFirstComment(pd: DurationParser, st: State, lines: seq<string>)
    requires Scan(pd, st, lines).Ok?
    ensures Scan(pd, st, lines).value.req.name == if st.req.name == "" then FirstName(lines) else st.req.name
    decreases |lines|
  {
    if |lines| > 0 {
      var next := Step(pd, st, lines[0]).value;
      NameFirstComment(pd, next, lines[1..]);
    }
  }

  /** The request a section reads into, field by field, from independent descriptions
      of the section's parts. */
  lemma ParseContentFields(pd: DurationParser, lines: seq<string>)
    requires ParseContent(pd, lines).Ok?
    ensures var ds := Directives(lines[..HeaderEnd(lines)]);
      var req := ParseContent(pd, lines).value;
      && req.name == FirstName(lines)
      && req.address == AddressOf(ds, "")
      && req.service == SettingOf(ds, "Service", "")
      && req.methodName == SettingOf(ds, "Method", "")
      && req.protocol == SettingOf(ds, "Protocol", DefaultProtocol)
      && TimeoutOf(pd, ds, DefaultTimeout) == Ok(req.timeout)
      && req.headers == HeadersOf(ds, map[])
      && req.body == BodyText(NonComments(BodyPart(lines)))
  {
    HeaderPhase(pd, Initial(), lines);
    NameFirstComment(pd, Initial(), lines);
    Text.EmptyAppend(NonComments(BodyPart(lines)));
  }

  /** Whether a section reads, and which error it gives: a rejected timeout first, then
      the address, the service and the method, in that order. */
  lemma ParseContentOutcome(pd: DurationParser, lines: seq<string>)
    ensures var ds := Directives(lines[..HeaderEnd(lines)]);
      var t := TimeoutOf(pd, ds, DefaultTimeout);
      var r := ParseContent(pd, lines);
      && (t.Err? ==> r == Err(t.error))
      && (t.Ok? && AddressOf(ds, "") == "" ==> r == Err(MissingAddress))
      && (t.Ok? && AddressOf(ds, "") != "" && SettingOf(ds, "Service", "") == "" ==> r == Err(MissingService))
      && ((t.Ok? && AddressOf(ds, "") != "" && SettingOf(ds, "Service", "") != ""
           && SettingOf(ds, "Method", "") == "") ==> r == Err(MissingMethod))
      && (r.Ok? <==>
           (t.Ok? && AddressOf(ds, "") != "" && SettingOf(ds, "Service", "") != ""
            && SettingOf(ds, "Method", "") != ""))
  {
    HeaderPhase(pd, Initial(), lines);
  }

  /** Lines that are neither comments nor markers. */
  predicate Clean(lines: seq<string>) {
    forall i :: 0 <= i < |lines| ==> !IsComment(lines[i]) && !IsMarker(lines[i])
  }

  /** The body holds neither comments nor marker lines. */
  lemma BodyIsClean(lines: seq<string>)
    ensures Clean(NonComments(BodyPart(lines)))
  {
    var m := FirstMarker(lines);
    BeforeFirstMarker(lines);
    assert BodyPart(lines) == lines[..m][HeaderEnd(lines)..];
    NoMarkersSuffix(lines[..m], HeaderEnd(lines));
    NonCommentsClean(BodyPart(lines));
  }

  /** No line before the first marker is a marker. */
  lemma {:induction false} BeforeFirstMarker(lines: seq<string>)
    ensures NoMarkers(lines[..FirstMarker(lines)])
    decreases |lines|
  {
    if |lines| > 0 && !IsMarker(lines[0]) {
      var m := FirstMarker(lines[1..]);
      BeforeFirstMarker(lines[1..]);
      Text.PrefixParts(lines, 1 + m);
      NoMarkersCons(lines[..1 + m]);
    }
  }

  lemma NoMarkersCons(lines: seq<string>)
    requires |lines| > 0 && !IsMarker(lines[0]) && NoMarkers(lines[1..])
    ensures NoMarkers(lines)
  {
    forall i | 1 <= i < |lines|
      ensures !IsMarker(lines[i])
    {
      assert lines[i] == lines[1..][i - 1];
    }
  }

  lemma NoMarkersSuffix(lines: seq<string>, k: nat)
    requires k <= |lines| && NoMarkers(lines)
    ensures NoMarkers(lines[k..])
  {
    forall i | 0 <= i < |lines| - k
      ensures !IsMarker(lines[k..][i])
    {
      assert lines[k..][i] == lines[k + i];
    }
  }

  lemma CleanAppend(a: seq<string>, b: seq<string>)
    requires Clean(a) && Clean(b)
    ensures Clean(a + b)
  {
    forall i | 0 <= i < |a + b|
      ensures !IsComment((a + b)[i]) && !IsMarker((a + b)[i])
    {
      if i < |a| {
        assert (a + b)[i] == a[i];
      } else {
        assert (a + b)[i] == b[i - |a|];
      }
    }
  }

  /** Dropping comments from marker-free lines leaves lines that are neither. */
  lemma {:induction false} NonCommentsClean(lines: seq<string>)
    requires NoMarkers(lines)
    ensures Clean(NonComments(lines))
    decreases |lines|
  {
    if |lines| > 0 {
      NoMarkersTail(lines);
      NonCommentsClean(lines[1..]);
      var head := if IsComment(lines[0]) then [] else [lines[0]];
      assert Clean(head);
      CleanAppend(head, NonComments(lines[1..]));
    }
  }

  // ----- The marked blocks -----

  /** The key/value pairs of the capture lines among `lines`: neither comments nor blank,
      with a colon. */
  function CaptureEntries(lines: seq<string>): seq<(string, string)> {
    if |lines| == 0 then [] else CaptureOf(lines[0]) + CaptureEntries(lines[1..])
  }

  /** The pair one capture line gives, if any. */
  function CaptureOf(line: string): seq<(string, string)> {
    var e := Entry(line);
    if !IsComment(line) && !IsBlank(line) && e.Some? then [e.value] else []
  }

  /** `m` with the pairs of `entries` written over it, in order. */
  function Overwrite(m: map<string, string>, entries: seq<(string, string)>): map<string, string>
    decreases |entries|
  {
    if |entries| == 0 then m else Overwrite(m[entries[0].0 := entries[0].1], entries[1..])
  }

  /** The last pair for a name wins. */
  lemma {:induction false} OverwriteLast(m: map<string, string>, entries: seq<(string, string)>, k: string, v: string)
    ensures Overwrite(m, entries + [(k, v)]) == Overwrite(m, entries)[k := v]
    decreases |entries|
  {
    if |entries| == 0 {
      Text.EmptyAppend([(k, v)]);
    } else {
      assert (entries + [(k, v)])[1..] == entries[1..] + [(k, v)];
      OverwriteLast(m[entries[0].0 := entries[0].1], entries[1..], k, v);
    }
  }

  /** The assertions of the assertion lines among `lines`: neither comments nor blank,
      and parsed from their trimmed text. */
  function AssertionsOf(lines: seq<string>): seq<Assertion> {
    if |lines| == 0 then [] else AssertionOf(lines[0]) + AssertionsOf(lines[1..])
  }

  /** The assertion one line gives, if any. */
  function AssertionOf(line: string): seq<Assertion> {
    var a := ParseAssertion(Text.TrimSpace(line));
    if !IsComment(line) && !IsBlank(line) && a.Some? then [a.value] else []
  }

  predicate NoMarkers(lines: seq<string>) {
    forall i :: 0 <= i < |lines| ==> !IsMarker(lines[i])
  }

  lemma NoMarkersTail(lines: seq<string>)
    requires |lines| > 0 && NoMarkers(lines)
    ensures NoMarkers(lines[1..])
  {
    forall i | 0 <= i < |lines[1..]|
      ensures !IsMarker(lines[1..][i])
    {
      assert lines[1..][i] == lines[i + 1];
    }
  }

  lemma CapturesModeStep(pd: DurationParser, st: State, line: string)
    requires st.mode == Captures && !IsMarker(line)
    ensures Step(pd, st, line) ==
      Ok(st.(req := if IsComment(line) then st.req.(name := NameAfter(st.req.name, line)) else CaptureLine(st.req, line)))
  {
  }

  /** A capture line writes its pair over the captures; any other line leaves them. */
  lemma CaptureLineOverwrite(req: RequestFile, line: string)
    requires !IsComment(line)
    ensures CaptureLine(req, line).captures == Overwrite(req.captures, CaptureOf(line))
  {
    if IsBlank(line) || Entry(line).None? {
      assert CaptureOf(line) == [];
      OverwriteNone(req.captures);
    } else {
      var e := Entry(line).value;
      assert CaptureOf(line) == [e];
      assert CaptureLine(req, line).captures == req.captures[e.0 := e.1];
      OverwriteOne(req.captures, e);
    }
  }

  lemma OverwriteNone(m: map<string, string>)
    ensures Overwrite(m, []) == m
  {
  }

  lemma OverwriteOne(m: map<string, string>, e: (string, string))
    ensures Overwrite(m, [e]) == m[e.0 := e.1]
  {
    assert [e][1..] == [];
  }

  lemma CapturesStep(pd: DurationParser, st: State, line: string)
    requires st.mode == Captures && !IsMarker(line)
    ensures Step(pd, st, line).Ok?
    ensures var r := Step(pd, st, line).value;
      && r.mode == Captures
      && r.req.captures == Overwrite(st.req.captures, CaptureOf(line))
      && r.req.asserts == st.req.asserts
  {
    CapturesModeStep(pd, st, line);
    if IsComment(line) {
      assert CaptureOf(line) == [];
      OverwriteNone(st.req.captures);
    } else {
      CaptureLineOverwrite(st.req, line);
    }
  }

  lemma AssertsStep(pd: DurationParser, st: State, line: string)
    requires st.mode == Asserts && !IsMarker(line)
    ensures Step(pd, st, line).Ok?
    ensures var r := Step(pd, st, line).value;
      && r.mode == Asserts
      && r.req.asserts == st.req.asserts + AssertionOf(line)
      && r.req.captures == st.req.captures
  {
    assert [line][1..] == [];
    if IsComment(line) || IsBlank(line) {
      assert st.req.asserts + [] == st.req.asserts;
    }
  }

  /** Between markers in the `[Captures]` block, every capture line sets its name, the
      last one for a name winning; nothing else changes. */
  lemma {:induction false} CapturesBlock(pd: DurationParser, st: State, lines: seq<string>)
    requires st.mode == Captures && NoMarkers(lines)
    ensures Scan(pd, st, lines).Ok?
    ensures var r := Scan(pd, st, lines).value;
      && r.mode == Captures
      && r.req.captures == Overwrite(st.req.captures, CaptureEntries(lines))
      && r.req.asserts == st.req.asserts
    decreases |lines|
  {
    if |lines| > 0 {
      assert !IsMarker(lines[0]);
      NoMarkersTail(lines);
      CapturesStep(pd, st, lines[0]);
      var next := Step(pd, st, lines[0]).value;
      ScanStep(pd, st, lines, next);
      CapturesBlock(pd, next, lines[1..]);
      OverwriteAppend(st.req.captures, CaptureOf(lines[0]), CaptureEntries(lines[1..]));
    }
  }

  lemma {:induction false} OverwriteAppend(m: map<string, string>, a: seq<(string, string)>, b: seq<(string, string)>)
    ensures Overwrite(m, a + b) == Overwrite(Overwrite(m, a), b)
    decreases |a|
  {
    if |a| == 0 {
      Text.EmptyAppend(b);
    } else {
      assert (a + b)[1..] == a[1..] + b;
      OverwriteAppend(m[a[0].0 := a[0].1], a[1..], b);
    }
  }

  /** Between markers in the `[Asserts]` block, every line that parses as an assertion
      is appended, in order; nothing else changes. */
  lemma {:induction false} AssertsBlock(pd: DurationParser, st: State, lines: seq<string>)
    requires st.mode == Asserts && NoMarkers(lines)
    ensures Scan(pd, st, lines).Ok?
    ensures var r := Scan(pd, st, lines).value;
      && r.mode == Asserts
      && r.req.asserts == st.req.asserts + AssertionsOf(lines)
      && r.req.captures == st.req.captures
    decreases |lines|
  {
    if |lines| == 0 {
      assert st.req.asserts + [] == st.req.asserts;
    } else {
      assert !IsMarker(lines[0]);
      NoMarkersTail(lines);
      AssertsStep(pd, st, lines[0]);
      var next := Step(pd, st, lines[0]).value;
      ScanStep(pd, st, lines, next);
      AssertsBlock(pd, next, lines[1..]);
      Text.AppendAssoc(st.req.asserts, AssertionOf(lines[0]), AssertionsOf(lines[1..]));
    }
  }

  // ----- Defaults and whole files -----

  predicate SetsKey(line: string, key: string) {
    Setting(line).Some? && Setting(line).value.0 == key
  }

  lemma {:induction false} SettingAbsent(ds: seq<string>, key: string, v: string)
    requires forall i :: 0 <= i < |ds| ==> !SetsKey(ds[i], key)
    ensures SettingOf(ds, key, v) == v
    decreases |ds|
  {
    if |ds| > 0 {
      SettingAbsent(ds[1..], key, v);
    }
  }

  lemma {:induction false} TimeoutAbsent(pd: DurationParser, ds: seq<string>, t: int)
    requires forall i :: 0 <= i < |ds| ==> !SetsKey(ds[i], "Timeout")
    ensures TimeoutOf(pd, ds, t) == Ok(t)
    decreases |ds|
  {
    if |ds| > 0 {
      TimeoutAbsent(pd, ds[1..], t);
    }
  }

  /** Without a `Protocol:` or `Timeout:` setting in the header part, or without a body
      part, the defaults `grpc-web`, 30 seconds and `{}` stand. */
  lemma Defaults(pd: DurationParser, lines: seq<string>)
    requires ParseContent(pd, lines).Ok?
    ensures var ds := Directives(lines[..HeaderEnd(lines)]);
      var req := ParseContent(pd, lines).value;
      && ((forall i :: 0 <= i < |ds| ==> !SetsKey(ds[i], "Protocol")) ==> req.protocol == DefaultProtocol)
      && ((forall i :: 0 <= i < |ds| ==> !SetsKey(ds[i], "Timeout")) ==> req.timeout == DefaultTimeout)
      && (BodyPart(lines) == [] ==> req.body == DefaultBody)
  {
    var ds := Directives(lines[..HeaderEnd(lines)]);
    ParseContentFields(pd, lines);
    if forall i :: 0 <= i < |ds| ==> !SetsKey(ds[i], "Protocol") {
      SettingAbsent(ds, "Protocol", DefaultProtocol);
    }
    if forall i :: 0 <= i < |ds| ==> !SetsKey(ds[i], "Timeout") {
      TimeoutAbsent(pd, ds, DefaultTimeout);
    }
  }

  /** A file gives one request per section, or the first failing section's error, or
      `no requests found in file` exactly when every line is a separator. */
  lemma FlattenNonEmpty(ss: seq<seq<string>>)
    requires |ss| > 0 && |ss[0]| > 0
    ensures Sections.Flatten(ss) != []
  {
    assert Sections.Flatten(ss) == ss[0] + Sections.Flatten(ss[1..]);
  }

  lemma {:induction false} ParseFromErrorText(parse: seq<string> -> Result<RequestFile, string>, sections: seq<seq<string>>, i: nat)
    requires i <= |sections| && ParseFrom(parse, sections, i).Err?
    ensures |ParseFrom(parse, sections, i).error| > 0 && ParseFrom(parse, sections, i).error[0] == 'r'
    decreases |sections| - i
  {
    var c := parse(sections[i]);
    if c.Err? {
      RequestErrorHead(i, c.error);
    } else {
      ParseFromErrorText(parse, sections, i + 1);
    }
  }

  lemma RequestErrorHead(i: nat, e: string)
    ensures |RequestError(i, e)| > 0 && RequestError(i, e)[0] == 'r'
  {
    assert RequestError(i, e) == "request " + (Numbers.IntToString(i + 1) + ": " + e);
  }

  /** A file gives one request per section, or the numbered error of the first section
      that fails, or `no requests found in file` exactly when every line is a separator. */
  lemma ParseMultipleSpec(pd: DurationParser, lines: seq<string>)
    ensures ParseMultiple(pd, lines) == Err(NoRequests) <==> Sections.Content(lines) == []
    ensures var r := ParseMultiple(pd, lines);
      r.Ok? ==> && |r.value| == |Sections.Split(lines)| > 0
                && forall j :: 0 <= j < |r.value| ==> ParseContent(pd, Sections.Split(lines)[j]) == Ok(r.value[j])
    ensures var r := ParseMultiple(pd, lines);
      r.Err? && Sections.Content(lines) != [] ==>
        exists j :: FirstFailure(Reader(pd), Sections.Split(lines), 0, j)
          && r.error == RequestError(j, ParseContent(pd, Sections.Split(lines)[j]).error)
  {
    var sections := Sections.Split(lines);
    Sections.SplitSound(lines);
    if |sections| > 0 {
      FlattenNonEmpty(sections);
      var r := ParseFrom(Reader(pd), sections, 0);
      ParseFromOutcome(Reader(pd), sections, 0);
      if r.Err? {
        ParseFromErrorText(Reader(pd), sections, 0);
        assert NoRequests[0] == 'n';
        var j :| FirstFailure(Reader(pd), sections, 0, j) && r.error == RequestError(j, Reader(pd)(sections[j]).error);
        assert Reader(pd)(sections[j]) == ParseContent(pd, sections[j]);
      } else {
        forall j | 0 <= j < |r.value|
          ensures ParseContent(pd, sections[j]) == Ok(r.value[j])
        {
          assert Reader(pd)(sections[j]) == ParseContent(pd, sections[j]);
        }
      }
    }
  }

  /** `Parse` is the first section's request, or the error of the whole file. */
  lemma ParseFirst(pd: DurationParser, lines: seq<string>)
    ensures var m := ParseMultiple(pd, lines);
      && (m.Err? ==> Parse(pd, lines) == Err(m.error))
      && (m.Ok? ==> Parse(pd, lines) == ParseContent(pd, Sections.Split(lines)[0]))
  {
    ParseMultipleSpec(pd, lines);
  }
}
