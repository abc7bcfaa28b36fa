# grpc-web-cli, modelled in Dafny

This project models the logic of a command-line client that runs gRPC, gRPC-Web and
Connect calls scripted in `.grpc` request files. The model covers:

- the request-file parser;
- path evaluation and assertion checking;
- template substitution;
- the service index;
- protocol and URL selection;
- the `run` loop.

File reading, proto loading, the command wiring, printing and the transport are left
out (see "## Left out"). The model, module by module, and what is proved about it:

- **Sections** and **FileParser**: `ParseMultiple` splits a file's lines into sections
  at `---` lines. `parseContent` reads each section with a line state machine that has
  four modes: header, body, `[Captures]` and `[Asserts]`. The result is a
  `RequestFile`, with its defaults applied and its required fields validated.
- **JsonPath** and **Json**: `evaluatePath` is a recursive descent over a decoded JSON
  value. `$`/`$.` root markers, dotted keys and `[n]` indexes are handled. Results are
  rendered the way Go's `%v` prints them.
- **Assert**: `Check` gives the pass/fail verdict of one `jsonpath` assertion and the
  exact message line for it.
- **Template**: `Substitute` does one `strings.ReplaceAll` per variable. The variables
  are visited in Go's unspecified map order.
- **Registry**: the service index built from compiled proto files, reduced to service
  and method names.
- **Client**: `ParseProtocol`, the trailing-slash trimming of `NewClient`, the URL a
  call posts to, and the transport option each protocol selects.
- **CallCmd**: the `call` command's flag defaults and its `--header 'Key: Value'` parsing.
- **Run**: the `run` command's loop. Each request has the variables captured so far
  substituted in, is resolved, called, captured and asserted, and the first failure
  stops the run. It also models `parseAddressAndPrefix`.

Several things are parameters rather than modelled code:

- Go map iteration order. Each place that ranges over a map takes an explicit order,
  which lists the map's keys once each: `Template.Enumerates` and `Registry.Lists`.
- `time.ParseDuration` (`FileParser.DurationParser`).
- `json.Unmarshal`. Its outcome is `Json.Decoded`.
- The proto registry, the codec and the transport. These are fields of `Run.Env`.

Behaviour of the code that is easy to miss, which the model follows:

- **The request name.** The first comment whose text after one `#` and trimming is
  non-empty sets the name. This holds for a comment anywhere in the section, not only
  at its top (internal/file/parser.go:127-133). A bare `#` therefore does not fix the
  name, and a later comment sets it (`FileParser.NameFirstComment`).
- **Comments inside a body.** The comment test runs before the body branch, so a line
  starting with `#` inside a JSON body is dropped from the body
  (internal/file/parser.go:127-133 before :248; `FileParser.BodyIsClean`).
- **Markers end a body.** A `[Captures]` or `[Asserts]` line switches mode even in the
  middle of a body, for the same reason (internal/file/parser.go:136-144;
  `FileParser.MarkerStep`).
- **Capture order.** `RequestFile.Captures` is a Go map, so the captures are applied in
  Go's unspecified map order, not in the order they were written.
  `Run.CaptureOrderFree` proves that the order does not change the resulting store.

One hypothesis is stronger than the obvious one:

- **Template substitution needs more than "no value contains `{{`" to be independent
  of map order.** `Template.OrderMattersForIllFormedText` gives the counterexample
  `{{{{a}}b}}` with `a` mapped to `""` and `b` mapped to `X`. Visiting `a` first gives
  `X`, and visiting `b` first gives `{{b}}`. The order independence proved here
  (`Template.OrderIndependent`) assumes three things:
  - names and values without braces;
  - input in which every `{{` opens a placeholder (`Template.WellFormed`);
  - simultaneous substitution (`Template.SimSub`) as the reference.

## Model

| member | source | states |
|---|---|---|
| Sections.SplitLoop | internal/file/parser.go:56-80 | the scanning loop, which closes the open section at each `---` line and after the last line, produces exactly the sections of the recursive definition |
| Sections.SplitSound | internal/file/parser.go:60-80 | no section is empty, no section holds a `---` line, the sections concatenated are exactly the non-separator lines in order, and there is one section per run of non-separator lines |
| FileParser.ParseMultipleSpec | internal/file/parser.go:82-95 | `no requests found in file` exactly when every line is a separator; on success one record per section, each the parse of its own section; otherwise the error is `request N: ` and the error of the first section that fails |
| FileParser.ParseFromOutcome | internal/file/parser.go:86-95 | the section loop succeeds exactly when every section parses, and otherwise reports the first failing section with its 1-based number |
| FileParser.ParseFrom | internal/file/parser.go:86-95 | on success one record per remaining section, each equal to that section's parse |
| FileParser.ParseFirst | internal/file/parser.go:34-43 | `Parse` returns the first section's request, and passes on `ParseMultiple`'s error |
| FileParser.ParseContentOutcome | internal/file/parser.go:272-301 | a bad `Timeout` fails first; then a missing address, service and method are reported in that order; the section parses exactly when the timeout is accepted and all three are non-empty |
| FileParser.ParseContentFields | internal/file/parser.go:109-290 | a parsed request's name, address, service, method, protocol, timeout, headers and body are those given by the header lines before the body or first marker, over the defaults |
| FileParser.Defaults | internal/file/parser.go:109-114 | protocol `grpc-web` when no `Protocol` line, 30 s when no `Timeout` line, body `{}` when no body line |
| FileParser.NameFirstComment | internal/file/parser.go:127-134 | the name is the text of the first comment, in any mode, whose text after one `#` and trimming is non-empty |
| FileParser.BodyIsClean | internal/file/parser.go:127-144 | the body never contains a comment line or a `[Captures]`/`[Asserts]` marker |
| FileParser.BodyPhase | internal/file/parser.go:243-251 | once in body mode every later non-comment line up to the first marker is appended verbatim, blanks included, and the header fields do not change |
| FileParser.AfterHeader | internal/file/parser.go:136-145 | from the first line that starts the body or is a marker, only the body lines remain to be collected; the header fields are fixed |
| FileParser.HeaderPhase | internal/file/parser.go:253-283 | over the header lines: the last `GRPC ` line gives the address, the last `Service`/`Method`/`Protocol` line each field, the last `Timeout` the duration (or the error of the first bad one), and every other key becomes a header |
| FileParser.BlockPhase | internal/file/parser.go:146-241 | once in `[Captures]` or `[Asserts]` the parser never fails, never returns to header or body mode, and never changes the header fields or the body |
| FileParser.MarkerStep | internal/file/parser.go:136-144 | a marker line switches to its block in every mode, body included |
| FileParser.BodyStartStep | internal/file/parser.go:243-250 | in header mode a line whose trimmed text starts with `{` switches to body mode and is the first body line |
| FileParser.HeaderStep | internal/file/parser.go:122-134 | in header mode blank lines and comments change nothing but the name |
| FileParser.DirectiveTimeout | internal/file/parser.go:272-277 | a `Timeout` line fails exactly when the duration parser rejects its value, with `invalid timeout duration "<value>": <error>`, and otherwise sets the timeout |
| FileParser.DirectiveEffect | internal/file/parser.go:253-283 | a header line sets the address when it starts with `GRPC ` (untrimmed), else the field named by its key or a header; later lines overwrite earlier ones |
| FileParser.CapturesBlock | internal/file/parser.go:146-162 | a captures block adds the key/value pairs of its lines that have a colon, split at the first colon and trimmed, later names overwriting earlier ones; blank lines and comments add nothing |
| FileParser.OverwriteLast | internal/file/parser.go:160 | writing one more capture over the store sets exactly that key |
| FileParser.AssertsBlock | internal/file/parser.go:164-241 | an asserts block appends, in order, the assertions its lines parse to |
| FileParser.Entry | internal/file/parser.go:260-263 | a header line, a capture line or a `--header` flag (cmd/call.go:62-63) has a key/value split exactly when it holds a colon |
| FileParser.Step | internal/file/parser.go:119-284 | one line: only header mode can fail; the block modes stay block modes; the name changes only by the first non-empty comment; the body only grows by the line itself, in body mode |
| FileParser.Finish | internal/file/parser.go:286-303 | a finished request has non-empty address, service and method, and its body is the collected lines joined by newlines or `{}`; otherwise one of the three validation errors |
| FileParser.SplitAtSpace | internal/file/parser.go:189-194 | a split exists exactly when the text holds a space; the part before it holds none and the rest is trimmed |
| FileParser.SplitQuoted | internal/file/parser.go:197-206 | only a text opening with `"` splits; the quoted part holds no quote and the rest is trimmed |
| FileParser.ValueText | internal/file/parser.go:216-231 | a quoted value holds no quote; an unquoted value is the rest of the line unchanged |
| FileParser.CaptureLine | internal/file/parser.go:146-162 | a captures line changes only the capture store, never the header fields, the name or the assertions |
| FileParser.AssertLine | internal/file/parser.go:164-241 | an asserts line changes only the assertion list |
| FileParser.DirectiveLine | internal/file/parser.go:253-283 | a header line that is accepted keeps the mode, the body, the name, the captures and the assertions |
| FileParser.ParseAssertion | internal/file/parser.go:174-239 | an assertion is recorded only from a line with at least four fields, a type without spaces, a key without quotes and an operator without spaces |
| FileParser.AssertionFields | internal/file/parser.go:174-175 | a line of the written form has at least four whitespace fields |
| FileParser.ParseAssertionQuoted | internal/file/parser.go:188-228 | `<type> "<key>" <op> "<value>"` parses back to exactly that assertion |
| FileParser.ParseAssertionRaw | internal/file/parser.go:229-231 | with an unquoted value the value is the rest of the line verbatim |
| FileParser.ParseAssertionUnclosed | internal/file/parser.go:218-228 | a quoted value without its closing quote is still recorded, with value `""` |
| FileParser.ParseAssertionParts | internal/file/parser.go:188-238 | the key runs to the next `"` and the operator to the next space |
| JsonPath.StripRoot | internal/client/jsonpath.go:30-35 | `$.` is removed when present, else a lone `$`, else nothing |
| JsonPath.Segment | internal/client/jsonpath.go:70-71 | the first segment is the text up to the first `.`, which it does not contain |
| JsonPath.EvaluateJsonPath | internal/client/jsonpath.go:14-27 | invalid JSON fails with its reason; otherwise the result is the `%v` text of the value the path reaches, or the path's error |
| JsonPath.RootMarkerIgnored | internal/client/jsonpath.go:30-35 | a leading `$.` or `$` does not change what a path evaluates to |
| JsonPath.UnclosedIndexFails | internal/client/jsonpath.go:42-46 | a leading `[` that no `]` closes fails with `unclosed array index in path: ` and the whole remaining path |
| JsonPath.BadIndexText | internal/client/jsonpath.go:48-52 | an index text `Atoi` rejects fails with that text and `Atoi`'s error, whatever the value and whatever follows the `]` |
| JsonPath.StepIndex | internal/client/jsonpath.go:42-66 | `[n]` needs an array and `0 <= n < length`, fails with `expected array` or `out of bounds` otherwise, and goes on with the rest after one `.` |
| JsonPath.StepLastKey | internal/client/jsonpath.go:103-117 | a final key needs an object holding it, and yields that field |
| JsonPath.StepDottedKey | internal/client/jsonpath.go:103-114 | `k.rest` looks up `k` and evaluates `rest` on the field |
| JsonPath.StepIndexedKey | internal/client/jsonpath.go:74-100 | `k[...]` looks up `k` and goes on with the bracket part and the rest |
| JsonPath.UnfoldIndexedKey | internal/client/jsonpath.go:74-100 | the general `key[` case: the real key before `[` is looked up and evaluation goes on with `[...]` plus `.` plus the rest |
| JsonPath.StepKey | internal/client/jsonpath.go:69-117 | A key step fails with `expected object` on a non-object and with `key not found` when the object lacks the key, and otherwise yields the field when no steps follow or evaluates the following steps, dotted or bracketed, inside that field. |
| JsonPath.EvaluateUnparse | internal/client/jsonpath.go:29-118 | evaluating the text of a list of keys and indexes is walking those steps through the value, the reference semantics of the path language |
| Text.TrimSpace | internal/file/parser.go:120 | the result is the slice of the input after its leading white space, and neither of its ends is white space |
| Text.SplitFirst | internal/file/parser.go:152 | there is a split exactly when the separator occurs; the parts around the first occurrence rebuild the input and the first holds no separator |
| Text.Fields | internal/file/parser.go:174 | every field is non-empty and free of white space; a single word is its only field and blank text has none |
| Text.FieldsJoin | internal/file/parser.go:174 | a white-space character separates fields: the fields of `x`, a space and `y` are those of `x` followed by those of `y` |
| Json.SortedKeys | internal/client/jsonpath.go:26 | `%v` prints a map's keys each once, in ascending order |
| Json.SmallNumberIsDecimal | internal/client/jsonpath.go:26 | a number below one million in magnitude prints as plain decimal digits |
| Numbers.Atoi | internal/client/jsonpath.go:49-52 | text is accepted exactly when it is one optional sign, then one or more decimal digits and nothing else, with a value within 64 bits; the value is the digits read in base 10 under the sign |
| Numbers.AtoiRejects | internal/client/jsonpath.go:49-52 | non-integer index texts such as `1x`, `1.5` and a lone `+` are syntax errors |
| Numbers.AtoiOfIntToString | internal/client/jsonpath.go:49 | every 64-bit integer's decimal text reads back as that integer |
| Assert.Check | internal/assert/assert.go:17-64 | another type passes with a warning; a path error fails with `failed to evaluate jsonpath '<key>': <error>` before the operator is looked at; an unknown operator fails; otherwise the verdict is the meaning of `==`, `!=` or `contains` and the message is the verdict line |
| Assert.PassMeans | internal/assert/assert.go:33-46 | a check passes exactly when its type is not `jsonpath`, or its path evaluates and the operator holds |
| Assert.NotEqualsNegates | internal/assert/assert.go:35-38 | `!=` passes exactly when `==` fails |
| Assert.EqualsImpliesContains | internal/assert/assert.go:35-40 | a value passing `==` passes `contains` |
| Assert.PathErrorFirst | internal/assert/assert.go:25-31 | a path error fails the check with the path error message, whatever the operator |
| Assert.VerdictStatus | internal/assert/assert.go:48-58 | a verdict line starts with `PASS: ` exactly when the comparison held |
| Assert.VerdictShowsActual | internal/assert/assert.go:53-58 | a failing verdict line ends with ` (actual: "<value>")` |
| Assert.ActualShownOnFailure | internal/assert/assert.go:48-63 | for a comparison that was carried out, the message starts with `PASS: ` exactly when it passed, and a failing message ends by showing the actual value |
| Assert.TestEqualsMismatch | internal/assert/assert_test.go:28-38 | the `==` mismatch case of the test table gives its exact message |
| Assert.TestNotEqualsMatch | internal/assert/assert_test.go:39-49 | the `!=` match case of the test table gives its exact message |
| Assert.TestUnknownOperator | internal/assert/assert_test.go:83-93 | the unknown-operator case of the test table |
| Assert.CheckPathError | internal/assert/assert.go:25-31 | a path that fails to evaluate gives the message `failed to evaluate jsonpath '<key>': ` and that path error |
| Assert.TestInvalidJsonPath | internal/assert/assert_test.go:94-104 | the invalid-path case of the test table, on any response object with an `items` field: `$.items[` fails at the unclosed bracket with its exact message |
| Assert.TestUnknownType | internal/assert/assert_test.go:105-115 | the `header` type case of the test table |
| Template.SubstituteIsSimSub | internal/template/template.go:9-22 | for names and values without braces and well-formed input, `Substitute` in any map order replaces every mapped placeholder by its value and keeps everything else |
| Template.OrderIndependent | internal/template/template.go:15-19 | under the same hypotheses two map orders give the same result |
| Template.NoPlaceholderUnchanged | internal/template/template.go:10-19 | text holding no placeholder of a mapped name, an empty map included, comes back unchanged |
| Template.UnmappedPlaceholder | internal/template/template.go:15-19 | a placeholder of an unmapped name is copied untouched |
| Template.ReplaceEachAgree | internal/template/template.go:15-19 | the loop reads only the variables it visits |
| Template.OrderMattersForIllFormedText | internal/template/template.go:15-19 | without well-formed input the result does depend on the order |
| Registry.NewRegistry | internal/proto/parser.go:102-106 | a new registry has no files and no services |
| Registry.IndexServicesLast | internal/proto/parser.go:113-117 | after indexing, a name maps to the last service of that name, and names not indexed keep their entry |
| Registry.BuildFinds | internal/proto/parser.go:109-118 | after adding files in order, a service is found exactly when some file declares it, and the one found is its last declaration |
| Registry.BuildKeyed | internal/proto/parser.go:116 | every service is indexed under its own full name |
| Registry.FindService | internal/proto/parser.go:146-152 | found exactly when indexed, else `service not found: <name>` |
| Registry.FirstMethod | internal/proto/parser.go:161-167 | the first method with the name, or none when no method has it |
| Registry.FindMethod | internal/proto/parser.go:155-176 | the service error passes through; a method is found exactly when one has the name, and it is the first; otherwise the error quotes the name and lists all method names in order, joined by `, ` |
| Registry.ListServices | internal/proto/parser.go:121-143 | one entry per indexed service, no name twice, each with its methods in declaration order |
| Registry.ListsCount | internal/proto/parser.go:124 | any listing order has exactly one entry per indexed name |
| Client.ParseProtocol | internal/client/client.go:27-37 | a protocol is returned only for the lower-cased names `grpc`, `grpc-web`, `connect`; anything else is an error quoting the input |
| Client.ParseProtocolName | internal/client/client.go:27-34 | each protocol's name parses back to it |
| Client.ParseProtocolIgnoresCase | internal/client/client.go:28 | an input and its lower-case form select the same protocol |
| Client.NewClient | internal/client/client.go:50-58 | at most one trailing `/` is removed from the address and from the prefix, exactly when there is one |
| Client.UrlIgnoresTrailingSlash | internal/client/client.go:50-72 | a trailing `/` on the address or the prefix does not double the slash in the URL, which is address, prefix, `/service/method` |
| Client.UrlOfNewClient | internal/client/client.go:50-72 | the URL of a new client is its address and prefix, each without one trailing `/`, then `/<service>/<method>` |
| Client.UrlEndsWithPath | internal/client/client.go:64-72 | the URL starts with the address and ends with `/<service>/<method>` |
| Client.Options | internal/client/client.go:75-83 | at most one transport option |
| Client.OptionsDetermineProtocol | internal/client/client.go:75-83 | gRPC, gRPC-Web and Connect select different options, so the options determine the protocol |
| CallCmd.DefaultFlags | cmd/call.go:110-114 | the flag defaults are data `{}`, protocol `grpc-web`, timeout 30 s, the same as the file parser's |
| CallCmd.DefaultProtocolIsGrpcWeb | cmd/call.go:113 | the default protocol flag parses to gRPC-Web |
| CallCmd.SplitHeaderParts | cmd/call.go:62-66 | every flag with a colon is a colon-free key, the colon and a value, and splits into that key and value, trimmed |
| CallCmd.SplitHeaderAtFirstColon | cmd/call.go:62-66 | the split is at the first colon, so values may hold colons; key and value are trimmed |
| CallCmd.ParseHeaderFlags | cmd/call.go:60-67 | the loop computes the same map or error as the fold over the flags |
| CallCmd.HeaderFlagsOk | cmd/call.go:61-65 | parsing succeeds exactly when every flag has a colon |
| CallCmd.HeaderFlagsLast | cmd/call.go:66 | each key holds the value of its last flag |
| CallCmd.HeaderFlagsError | cmd/call.go:63-65 | a failure quotes the first flag without a colon |
| Run.ParseAddressAndPrefix | cmd/run.go:174-186 | base and prefix concatenate to the address; the prefix is empty exactly when there are fewer than three `/`, and otherwise starts at the third `/` |
| Run.AddressAndPrefix | cmd/run.go:174-186 | the same split as a function |
| Run.SplitUnique | cmd/run.go:177-183 | only one cut of the address puts a `/` first in the prefix with two `/` before it |
| Run.Substituted | cmd/run.go:67-72 | the address, the body and every header value are the store substituted into them, in the request's map order; nothing else changes, header keys included; an empty store leaves the request unchanged |
| Run.SubstitutedIsSimSub | cmd/run.go:67-72 | for well-formed text and brace-free variables, each of the address, the body and every header value is the simultaneous substitution of the store into it |
| Run.SubstitutedOrderFree | cmd/run.go:67-72 | under the same hypotheses, Go's map iteration order does not change the substituted request |
| Run.Prepare | cmd/run.go:82-110 | a method lookup failure gives its error and the list of services; then a protocol failure; then `failed to parse JSON input: ` and the conversion error; a prepared call carries the converted input and has the protocol's options, the request's headers and timeout, and the URL `<base><prefix>/<service>/<method>`, where base and prefix are the address split at its third `/`, each without one trailing `/` |
| Run.PrepareUrl | cmd/run.go:100-104 | for a registry built by `AddFile`, an address without a trailing `/` whose part before the third `/` has none either is posted to as that address followed by `/<service>/<method>` |
| Run.Exchange | cmd/run.go:112-125 | call failures are prefixed `RPC call failed: `, conversion failures `failed to format response: `, and the result is `Ok` exactly when the call and the conversion both succeed, with the converted text |
| Run.CaptureIsCaptured | cmd/run.go:130-141 | the capture loop in any order of distinct names stores every capture whose path evaluates over the old value, and leaves the rest of the store as it was |
| Run.CaptureOrderFree | cmd/run.go:132-139 | the store after the captures does not depend on the map order |
| Run.Checks | cmd/run.go:147-160 | every assertion of a request is checked, in order |
| Run.FinishOutcome | cmd/run.go:129-165 | after the response the request succeeds exactly when all assertions pass, and then the store is the old one with the evaluated captures written over it; otherwise `one or more assertions failed` |
| Run.Dispatch | cmd/run.go:82-165 | a call is dispatched exactly when preparation succeeds; preparation, call and conversion errors end the request; the outcome then follows the assertions and captures |
| Run.RunRequest | cmd/run.go:61-165 | a request lets the run go on only after dispatching its call |
| Run.RunFrom | cmd/run.go:61-168 | the run completes exactly when it has no error; one call per completed request and at most one more from the failing one; earlier calls are kept |
| Run.RunFromChain | cmd/run.go:58-141 | a run from any request follows one chain of stores: each request runs with the store the request before it returned, the new calls are those requests' calls in order, the final store is the last link, and an error is that of the step on the last store |
| Run.RunRequestsChain | cmd/run.go:58-141 | the run of a file starts from the empty store, and each request after the first runs with the store the one before it returned |
| Run.RunFromPrefix | cmd/run.go:58-72 | the run of a prefix of the requests is where the whole run stands after them: a failing prefix is the whole run, a successful one hands its store and calls on to the next request |
| Run.RunRequestsPrefix | cmd/run.go:58-168 | from an empty store, the run of a file extends the run of its first `k` requests, and stops there if that run fails |
| Run.Stepper | cmd/run.go:61-165 | the run's step is one request in the environment, defined for every request and store |
| Run.RunFile | cmd/run.go:46-61 | a file that does not parse fails with `failed to parse request file: ` before any request, and a file that parses is run request by request from the empty store |

## Left out

- File opening and line reading with `bufio.Scanner` (internal/file/parser.go:48-75): the parser takes the file's lines as a sequence of strings, so reading errors do not arise.
- Strings are sequences of Unicode characters, where Go strings are bytes. Text that is not valid UTF-8, and byte offsets inside multi-byte characters, are outside the model.
- `time.ParseDuration` is a parameter of the parser, `json.Unmarshal` is represented by its outcome (`Json.Decoded`), and `JSONToProto`, `ProtoToJSON` and the transport are fields of `Run.Env`: they are library code.
- Json.Render: numbers are whole numbers; fractions and the rounding of integers beyond 2^53 by float64 are not modelled.
- Text.ToLowerAscii: lower-cases ASCII letters only, where `strings.ToLower` also folds other Unicode letters; `ParseProtocol` compares with ASCII names, so this matters only for non-ASCII inputs.
- Text.Quote: escapes only what `strconv.Quote` escapes for ASCII text; its `\u` escapes of non-printable Unicode characters are not modelled.
- Text.IsSpace follows `unicode.IsSpace` for the characters it lists; the parser's `Fields` and `TrimSpace` use it.
- `LoadProtos` (internal/proto/parser.go:15-80): a directory walk and an external proto compiler. Registries are built from files given as lists of services with their methods (`Registry.Build`).
- The Cobra command wiring, flag registration and the printed output of `run` (`# Request N` headers, JSON, capture and assertion lines, `---` separators) are not modelled.
- The unreachable error branch of the assertion loop (cmd/run.go:149-154): `Check` never returns an error, so `Assert.Check` has no error result.
- Run.Substituted: one map order per request is used for the address, the body and every header value, where Go starts each `range` afresh; `Run.SubstitutedOrderFree` shows that the order does not matter for well-formed text and brace-free variables.
- Run.Prepare: the URL is stated only for registries built by `AddFile`, where every service sits under its own name (`Registry.Keyed`); for other registries the path uses the indexed service's own full name.
- Template.OrderIndependent: stated for names and values without braces and well-formed input rather than only "no value contains `{{`", because that weaker hypothesis does not make the order irrelevant (`Template.OrderMattersForIllFormedText`).
- The remaining steps of the `call` command (cmd/call.go:40-101) repeat those of `run` for a single request; only its header parsing and flag defaults are modelled.
- The gRPC error conversion and the dynamic codec inside `Client.Call` (internal/client/client.go:85-196) are transport code.
