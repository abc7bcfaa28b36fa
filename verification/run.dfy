/** The `run` command: the requests of a file are executed one after another, each with
    the variables captured by the requests before it substituted in. The proto registry,
    message encoding, the network call and map iteration orders are parameters. */
module Run {
  import opened Wrappers
  import opened Json
  import Text
  import Template
  import Registry
  import Client
  import JsonPath
  import Assert
  import FileParser

  // ---------------------------------------------------------------------------
  // parseAddressAndPrefix

  /** The number of `/` in `s`. */
  function Slashes(s: string): nat
    decreases |s|
  {
    if |s| == 0 then 0 else Slashes(s[..|s| - 1]) + (if s[|s| - 1] == '/' then 1 else 0)
  }

  lemma SlashesStep(s: string, i: nat)
    requires i < |s|
    ensures Slashes(s[..i + 1]) == Slashes(s[..i]) + (if s[i] == '/' then 1 else 0)
  {
    assert s[..i + 1][..i] == s[..i];
  }

  /** `parseAddressAndPrefix`: the text before the third `/` and the rest from it on;
      an address with fewer than three slashes has no prefix. */
  method ParseAddressAndPrefix(address: string) returns (base: string, prefix: string)
    ensures base + prefix == address
    ensures prefix == "" <==> Slashes(address) < 3
    ensures prefix != "" ==> prefix[0] == '/' && Slashes(base) == 2
    ensures (base, prefix) == AddressAndPrefix(address)
  {
    var count := 0;
    var i := 0;
    while i < |address|
      invariant 0 <= i <= |address|
      invariant count == Slashes(address[..i]) && count < 3
    {
      SlashesStep(address, i);
      if address[i] == '/' {
        count := count + 1;
        if count == 3 {
          base, prefix := address[..i], address[i..];
          Text.AppendParts(base, prefix);
          assert base + prefix == address;
          SlashesFrom(address, i + 1);
          assert prefix[0] == '/';
          var r := AddressAndPrefix(address);
          SplitUnique(address, base, prefix, r.0, r.1);
          return;
        }
      }
      i := i + 1;
    }
    assert address[..i] == address;
    return address, "";
  }

  /** There is only one way to cut a text in front of a `/` with two slashes before it. */
  lemma SplitUnique(a: string, b1: string, p1: string, b2: string, p2: string)
    requires b1 + p1 == a && p1 != "" && p1[0] == '/' && Slashes(b1) == 2
    requires b2 + p2 == a && p2 != "" && p2[0] == '/' && Slashes(b2) == 2
    ensures b1 == b2 && p1 == p2
  {
    Text.AppendParts(b1, p1);
    Text.AppendParts(b2, p2);
    if |b1| < |b2| {
      SlashesBefore(a, |b1|, |b2|);
    } else if |b2| < |b1| {
      SlashesBefore(a, |b2|, |b1|);
    }
  }

  /** A `/` at `i` counts for every longer prefix. */
  lemma SlashesBefore(s: string, i: nat, j: nat)
    requires i < j <= |s| && s[i] == '/'
    ensures Slashes(s[..j]) >= Slashes(s[..i]) + 1
  {
    var t := s[..j];
    SlashesFrom(t, i);
    SlashesHead(t[i..]);
    assert t[..i] == s[..i];
  }

  /** The slashes of a text are those before position `i` plus those from it on. */
  lemma {:induction false} SlashesFrom(s: string, i: nat)
    requires i <= |s|
    ensures Slashes(s) == Slashes(s[..i]) + Slashes(s[i..])
    decreases |s| - i
  {
    if i < |s| {
      SlashesFrom(s, i + 1);
      SlashesStep(s, i);
      SlashesHead(s[i..]);
      assert s[i..][1..] == s[i + 1..];
    } else {
      assert s[..i] == s;
    }
  }

  /** Counting from the front. */
  lemma {:induction false} SlashesHead(s: string)
    requires |s| > 0
    ensures Slashes(s) == (if s[0] == '/' then 1 else 0) + Slashes(s[1..])
    decreases |s|
  {
    if |s| > 1 {
      SlashesHead(s[..|s| - 1]);
      assert s[..|s| - 1][1..] == s[1..][..|s| - 2];
    } else {
      assert s[..0] == [] && s[1..] == [];
    }
  }

  /** The same split as a function, for use inside the run. */
  function AddressAndPrefix(address: string): (r: (string, string))
    ensures r.0 + r.1 == address
    ensures r.1 == "" <==> Slashes(address) < 3
    ensures r.1 != "" ==> r.1[0] == '/' && Slashes(r.0) == 2
  {
    var i := ThirdSlash(address, 0, 0);
    if i.Some? then
      Text.AppendParts(address[..i.value], address[i.value..]);
      SlashesFrom(address, i.value);
      (address[..i.value], address[i.value..])
    else (address, "")
  }

  /** The position of the third `/`, scanning from `i` with `count` slashes seen. */
  function ThirdSlash(s: string, i: nat, count: nat): (r: Option<nat>)
    requires i <= |s| && count == Slashes(s[..i]) && count < 3
    ensures r.Some? ==> i <= r.value < |s| && s[r.value] == '/' && Slashes(s[..r.value]) == 2
    ensures r.None? <==> Slashes(s) < 3
    decreases |s| - i
  {
    if i == |s| then
      assert s[..i] == s;
      None
    else
      SlashesStep(s, i);
      if s[i] == '/' && count == 2 then
        SlashesFrom(s, i + 1);
        Some(i)
      else ThirdSlash(s, i + 1, if s[i] == '/' then count + 1 else count)
  }

  // ---------------------------------------------------------------------------
  // The environment of a run

  /** A protobuf message, opaque to the run. */
  datatype Message = Message(bytes: seq<int>)

  /** Everything `Call` sends: where, how, and what. */
  datatype CallRequest = CallRequest(
    url: string,
    options: seq<Client.CallOption>,
    headers: map<string, string>,
    timeout: int,
    input: Message)

  /** What the run cannot see: the loaded registry, the codec and transport, response
      decoding, and the iteration orders of Go maps (per request and per map). */
  datatype Env = Env(
    registry: Registry.Registry,
    serviceOrder: seq<string>,
    varOrder: (nat, map<string, string>) -> seq<string>,
    captureOrder: (nat, map<string, string>) -> seq<string>,
    toProto: (string, Registry.Method) -> Result<Message, string>,
    call: CallRequest -> Result<Message, string>,
    toJson: Message -> Result<string, string>,
    decode: string -> Decoded)

  /** The orders are orders of the maps they are given. */
  ghost predicate ValidEnv(env: Env) {
    && Registry.Lists(env.serviceOrder, env.registry.services.Keys)
    && (forall i, m :: Template.Enumerates(env.varOrder(i, m), m))
    && (forall i, m :: Template.Enumerates(env.captureOrder(i, m), m))
  }

  // ---------------------------------------------------------------------------
  // One request

  /** Substitution of the variables into the address, the body and every header value. */
  function Substituted(env: Env, i: nat, req: FileParser.RequestFile, vars: map<string, string>): (r: FileParser.RequestFile)
    requires ValidEnv(env)
    ensures r.name == req.name && r.service == req.service && r.methodName == req.methodName
    ensures r.protocol == req.protocol && r.timeout == req.timeout
    ensures r.captures == req.captures && r.asserts == req.asserts
    ensures r.headers.Keys == req.headers.Keys
    ensures |vars| == 0 ==> r == req
    ensures r.address == Template.Substitute(req.address, vars, env.varOrder(i, vars))
    ensures r.body == Template.Substitute(req.body, vars, env.varOrder(i, vars))
    ensures forall k :: k in r.headers ==> r.headers[k] == Template.Substitute(req.headers[k], vars, env.varOrder(i, vars))
  {
    var order := env.varOrder(i, vars);
    var headers := map k | k in req.headers :: Template.Substitute(req.headers[k], vars, order);
    assert |vars| == 0 ==> headers == req.headers;
    req.(address := Template.Substitute(req.address, vars, order),
         body := Template.Substitute(req.body, vars, order),
         headers := headers)
  }

  /** Every text of a request that substitution rewrites is well formed. */
  predicate SubstitutableText(req: FileParser.RequestFile) {
    && Template.WellFormed(req.address) && Template.WellFormed(req.body)
    && forall k :: k in req.headers ==> Template.WellFormed(req.headers[k])
  }

  /** For well-formed text and brace-free variables, the address, the body and every
      header value are the one-pass simultaneous substitution of the store into them,
      whatever order the maps are visited in. */
  lemma SubstitutedIsSimSub(env: Env, i: nat, req: FileParser.RequestFile, vars: map<string, string>)
    requires ValidEnv(env) && Template.Braceless(vars) && SubstitutableText(req)
    ensures var r := Substituted(env, i, req, vars);
      && r.address == Template.SimSub(req.address, vars)
      && r.body == Template.SimSub(req.body, vars)
      && r.headers.Keys == req.headers.Keys
      && forall k :: k in r.headers ==> r.headers[k] == Template.SimSub(req.headers[k], vars)
  {
    var order := env.varOrder(i, vars);
    assert Template.Enumerates(order, vars);
    Template.SubstituteIsSimSub(req.address, vars, order);
    Template.SubstituteIsSimSub(req.body, vars, order);
    forall k | k in req.headers
      ensures Template.Substitute(req.headers[k], vars, order) == Template.SimSub(req.headers[k], vars)
    {
      Template.SubstituteIsSimSub(req.headers[k], vars, order);
    }
  }

  /** Hence two runs that reach the same store substitute a request identically, even
      when Go's map iteration differs between them. */
  lemma SubstitutedOrderFree(env1: Env, env2: Env, i1: nat, i2: nat, req: FileParser.RequestFile, vars: map<string, string>)
    requires ValidEnv(env1) && ValidEnv(env2) && Template.Braceless(vars) && SubstitutableText(req)
    ensures Substituted(env1, i1, req, vars) == Substituted(env2, i2, req, vars)
  {
    SubstitutedIsSimSub(env1, i1, req, vars);
    SubstitutedIsSimSub(env2, i2, req, vars);
    var r1 := Substituted(env1, i1, req, vars);
    var r2 := Substituted(env2, i2, req, vars);
    assert r1.headers == r2.headers;
  }

  /** The error for a method the registry cannot resolve: the lookup error and the
      services the registry holds. */
  function LookupError(env: Env, e: string): string
    requires ValidEnv(env)
  {
    var infos := Registry.ListServices(env.registry, env.serviceOrder);
    e + "\n\nAvailable services: " + Text.Join(seq(|infos|, k requires 0 <= k < |infos| => infos[k].fullName), ", ")
  }

  /** Resolving the method, the protocol and the input message, in that order, and
      assembling the call; the first failure aborts. */
  function Prepare(env: Env, req: FileParser.RequestFile): (r: Result<CallRequest, string>)
    requires ValidEnv(env)
    ensures Registry.FindMethod(env.registry, req.service, req.methodName).Err? ==>
      r == Err(LookupError(env, Registry.FindMethod(env.registry, req.service, req.methodName).error))
    ensures Registry.FindMethod(env.registry, req.service, req.methodName).Ok? && Client.ParseProtocol(req.protocol).Err? ==>
      r == Err(Client.ParseProtocol(req.protocol).error)
    ensures Registry.FindMethod(env.registry, req.service, req.methodName).Ok? && Client.ParseProtocol(req.protocol).Ok? ==>
      var input := env.toProto(req.body, Registry.FindMethod(env.registry, req.service, req.methodName).value);
      && (input.Err? ==> r == Err("failed to parse JSON input: " + input.error))
      && (input.Ok? ==> r.Ok? && r.value.input == input.value)
    ensures r.Ok? ==>
      && Client.ParseProtocol(req.protocol).Ok?
      && r.value.options == Client.Options(Client.ParseProtocol(req.protocol).value)
      && r.value.headers == req.headers && r.value.timeout == req.timeout
    ensures r.Ok? && Registry.Keyed(env.registry) ==>
      Text.HasSuffix(r.value.url, "/" + req.service + "/" + req.methodName)
    ensures r.Ok? && Registry.Keyed(env.registry) ==>
      r.value.url == Text.TrimSuffix(AddressAndPrefix(req.address).0, "/") + Text.TrimSuffix(AddressAndPrefix(req.address).1, "/")
                     + "/" + req.service + "/" + req.methodName
  {
    match Registry.FindMethod(env.registry, req.service, req.methodName)
    case Err(e) => Err(LookupError(env, e))
    case Ok(m) =>
      match Client.ParseProtocol(req.protocol)
      case Err(e) => Err(e)
      case Ok(proto) =>
        var (base, prefix) := AddressAndPrefix(req.address);
        var c := Client.NewClient(base, prefix, proto, req.headers);
        match env.toProto(req.body, m)
        case Err(e) => Err("failed to parse JSON input: " + e)
        case Ok(input) =>
          var svc := env.registry.services[req.service];
          Client.UrlEndsWithPath(c, svc.fullName, m.name);
          Client.UrlOfNewClient(base, prefix, proto, req.headers, svc.fullName, m.name);
          Ok(CallRequest(Client.Url(c, svc.fullName, m.name), Client.Options(proto), req.headers, req.timeout, input))
  }

  /** A prefix that is not empty ends the address, so it ends in `/` only when the
      address does. */
  lemma PrefixEndsAddress(base: string, prefix: string)
    requires prefix != "" && !Text.HasSuffix(base + prefix, "/")
    ensures !Text.HasSuffix(prefix, "/")
  {
    Text.AppendParts(base, prefix);
    var a := base + prefix;
    assert a[|a| - 1] == prefix[|prefix| - 1];
  }

  /** End to end: an address without a trailing `/`, whose text before the third `/`
      has none either, is posted to as the address followed by `/<service>/<method>`. */
  lemma PrepareUrl(env: Env, req: FileParser.RequestFile)
    requires ValidEnv(env) && Registry.Keyed(env.registry) && Prepare(env, req).Ok?
    requires !Text.HasSuffix(req.address, "/") && !Text.HasSuffix(AddressAndPrefix(req.address).0, "/")
    ensures Prepare(env, req).value.url == req.address + "/" + req.service + "/" + req.methodName
  {
    var (base, prefix) := AddressAndPrefix(req.address);
    if prefix != "" {
      PrefixEndsAddress(base, prefix);
    }
    assert Text.TrimSuffix(base, "/") + Text.TrimSuffix(prefix, "/") == req.address;
    Text.AppendAssoc(req.address, "/", req.service);
  }

  /** The call and the conversion of its response to JSON text. */
  function Exchange(env: Env, call: CallRequest): (r: Result<string, string>)
    ensures env.call(call).Err? ==> r == Err("RPC call failed: " + env.call(call).error)
    ensures env.call(call).Ok? && env.toJson(env.call(call).value).Err? ==>
      r == Err("failed to format response: " + env.toJson(env.call(call).value).error)
    ensures r.Ok? <==> env.call(call).Ok? && env.toJson(env.call(call).value).Ok?
    ensures r.Ok? ==> r == env.toJson(env.call(call).value)
  {
    match env.call(call)
    case Err(e) => Err("RPC call failed: " + e)
    case Ok(resp) =>
      match env.toJson(resp)
      case Err(e) => Err("failed to format response: " + e)
      case Ok(text) => Ok(text)
  }

  /** The capture loop, visiting the names in `order`: a path that evaluates stores its
      text, a path that fails leaves the store as it is. */
  function Capture(vars: map<string, string>, caps: map<string, string>, order: seq<string>, doc: Decoded): map<string, string>
    requires forall k :: k in order ==> k in caps
    decreases |order|
  {
    if |order| == 0 then vars
    else
      var n := order[0];
      var v := JsonPath.EvaluateJsonPath(doc, caps[n]);
      Capture(if v.Ok? then vars[n := v.value] else vars, caps, order[1..], doc)
  }

  /** The captures among `names` whose path evaluates, with the text each yields. */
  function Found(caps: map<string, string>, names: set<string>, doc: Decoded): map<string, string>
    requires names <= caps.Keys
  {
    map k | k in names && JsonPath.EvaluateJsonPath(doc, caps[k]).Ok? :: JsonPath.EvaluateJsonPath(doc, caps[k]).value
  }

  /** A reference for the store after the captures of the names in `names`, in no order:
      what was found overrides the old store. */
  function Captured(vars: map<string, string>, caps: map<string, string>, names: set<string>, doc: Decoded): map<string, string>
    requires names <= caps.Keys
  {
    vars + Found(caps, names, doc)
  }

  /** The names an order visits. */
  function Elems(order: seq<string>): set<string> {
    set n | n in order
  }

  /** One more name adds its capture when its path evaluates. */
  lemma FoundStep(caps: map<string, string>, n: string, rest: set<string>, doc: Decoded)
    requires n in caps && rest <= caps.Keys && n !in rest
    ensures var v := JsonPath.EvaluateJsonPath(doc, caps[n]);
      Found(caps, rest + {n}, doc) == if v.Ok? then Found(caps, rest, doc)[n := v.value] else Found(caps, rest, doc)
  {
  }

  /** Overriding one key first and then the others is overriding with all of them. */
  lemma OverrideStep(vars: map<string, string>, f: map<string, string>, n: string, v: string)
    requires n !in f
    ensures vars[n := v] + f == vars + f[n := v]
  {
  }

  /** Capturing `n` first and then the names in `rest` reaches the reference store for
      all of them. */
  lemma CapturedStep(vars: map<string, string>, caps: map<string, string>, n: string, rest: set<string>, doc: Decoded)
    requires n in caps && rest <= caps.Keys && n !in rest
    ensures var v := JsonPath.EvaluateJsonPath(doc, caps[n]);
      Captured(if v.Ok? then vars[n := v.value] else vars, caps, rest, doc) == Captured(vars, caps, rest + {n}, doc)
  {
    var v := JsonPath.EvaluateJsonPath(doc, caps[n]);
    FoundStep(caps, n, rest, doc);
    if v.Ok? {
      OverrideStep(vars, Found(caps, rest, doc), n, v.value);
    }
  }

  /** The capture loop, whatever order it visits distinct names in, reaches the reference
      store: every capture whose path evaluates is stored over the old value, the rest of
      the store is kept. */
  lemma {:induction false} CaptureIsCaptured(vars: map<string, string>, caps: map<string, string>, order: seq<string>, doc: Decoded)
    requires forall i :: 0 <= i < |order| ==> order[i] in caps
    requires forall i, j :: 0 <= i < j < |order| ==> order[i] != order[j]
    ensures Capture(vars, caps, order, doc) == Captured(vars, caps, Elems(order), doc)
    decreases |order|
  {
    if |order| == 0 {
      assert Found(caps, {}, doc) == map[];
      assert vars + map[] == vars;
    } else {
      var n := order[0];
      var rest := order[1..];
      assert forall i :: 0 <= i < |rest| ==> rest[i] == order[i + 1];
      var v := JsonPath.EvaluateJsonPath(doc, caps[n]);
      CaptureIsCaptured(if v.Ok? then vars[n := v.value] else vars, caps, rest, doc);
      assert n !in Elems(rest);
      assert Elems(order) == Elems(rest) + {n} by {
        assert forall x :: x in order <==> x == n || x in rest;
      }
      CapturedStep(vars, caps, n, Elems(rest), doc);
    }
  }

  /** The order Go's map iteration happens to use does not change the store after the
      captures of a request. */
  lemma CaptureOrderFree(vars: map<string, string>, caps: map<string, string>, o1: seq<string>, o2: seq<string>, doc: Decoded)
    requires Template.Enumerates(o1, caps) && Template.Enumerates(o2, caps)
    ensures Capture(vars, caps, o1, doc) == Capture(vars, caps, o2, doc)
    ensures Capture(vars, caps, o1, doc) == Captured(vars, caps, caps.Keys, doc)
  {
    CaptureIsCaptured(vars, caps, o1, doc);
    CaptureIsCaptured(vars, caps, o2, doc);
    assert Elems(o1) == caps.Keys && Elems(o2) == caps.Keys;
  }

  /** The results of every assertion of a request, in order. */
  function Checks(asserts: seq<FileParser.Assertion>, doc: Decoded): (rs: seq<Assert.CheckResult>)
    ensures |rs| == |asserts| && forall k :: 0 <= k < |rs| ==> rs[k] == Assert.Check(asserts[k], doc)
  {
    seq(|asserts|, k requires 0 <= k < |asserts| => Assert.Check(asserts[k], doc))
  }

  predicate AllPass(rs: seq<Assert.CheckResult>) {
    forall k :: 0 <= k < |rs| ==> rs[k].pass
  }

  /** What one request did: the call it dispatched, if it got that far, and either the
      new variable store or the error that ends the run. */
  datatype RequestResult = RequestResult(dispatched: Option<CallRequest>, outcome: Result<map<string, string>, string>)

  const AssertionsFailed: string := "one or more assertions failed"

  /** The end of a request whose response `doc` arrived: the captures, then the
      assertions, all of which are evaluated before the verdict. */
  function Finish(vars: map<string, string>, caps: map<string, string>, order: seq<string>,
                  asserts: seq<FileParser.Assertion>, doc: Decoded): Result<map<string, string>, string>
    requires forall k :: k in order ==> k in caps
  {
    var vars' := Capture(vars, caps, order, doc);
    if AllPass(Checks(asserts, doc)) then Ok(vars') else Err(AssertionsFailed)
  }

  /** Once the response is in, the request lets the run go on exactly when every
      assertion passes, and it then stores every capture whose path evaluates on top of
      the earlier store, whatever order the captures are visited in. */
  lemma FinishOutcome(vars: map<string, string>, caps: map<string, string>, order: seq<string>,
                      asserts: seq<FileParser.Assertion>, doc: Decoded)
    requires Template.Enumerates(order, caps)
    ensures var r := Finish(vars, caps, order, asserts, doc);
      && (r.Ok? <==> forall k :: 0 <= k < |asserts| ==> Assert.Check(asserts[k], doc).pass)
      && (r.Ok? ==> r.value == Captured(vars, caps, caps.Keys, doc))
      && (r.Err? ==> r.error == AssertionsFailed)
  {
    CaptureIsCaptured(vars, caps, order, doc);
    assert Elems(order) == caps.Keys;
    ChecksPass(asserts, doc);
  }

  lemma ChecksPass(asserts: seq<FileParser.Assertion>, doc: Decoded)
    ensures AllPass(Checks(asserts, doc)) <==> forall k :: 0 <= k < |asserts| ==> Assert.Check(asserts[k], doc).pass
  {
  }

  /** A request after its substitution, from the prepared call on: a preparation error
      ends it before any call, a call or response error ends it after the call. */
  function Dispatch(env: Env, i: nat, sub: FileParser.RequestFile, prepared: Result<CallRequest, string>,
                    vars: map<string, string>): (r: RequestResult)
    requires ValidEnv(env)
    ensures r.dispatched.Some? <==> prepared.Ok?
    ensures prepared.Ok? ==> r.dispatched.value == prepared.value
    ensures prepared.Err? ==> r.outcome == Err(prepared.error)
    ensures prepared.Ok? && Exchange(env, prepared.value).Err? ==> r.outcome == Err(Exchange(env, prepared.value).error)
    ensures prepared.Ok? && Exchange(env, prepared.value).Ok? ==>
      var doc := env.decode(Exchange(env, prepared.value).value);
      && (r.outcome.Ok? <==> forall k :: 0 <= k < |sub.asserts| ==> Assert.Check(sub.asserts[k], doc).pass)
      && (r.outcome.Ok? ==> r.outcome.value == Captured(vars, sub.captures, sub.captures.Keys, doc))
  {
    match prepared
    case Err(e) => RequestResult(None, Err(e))
    case Ok(call) =>
      match Exchange(env, call)
      case Err(e) => RequestResult(Some(call), Err(e))
      case Ok(text) =>
        var doc := env.decode(text);
        var order := env.captureOrder(i, sub.captures);
        FinishOutcome(vars, sub.captures, order, sub.asserts, doc);
        RequestResult(Some(call), Finish(vars, sub.captures, order, sub.asserts, doc))
  }

  /** One iteration of the run loop on request `i`, with the store `vars`. Assertions and
      capture paths are not substituted. */
  function RunRequest(env: Env, i: nat, req: FileParser.RequestFile, vars: map<string, string>): (r: RequestResult)
    requires ValidEnv(env)
    ensures r.outcome.Ok? ==> r.dispatched.Some?
  {
    var sub := Substituted(env, i, req, vars);
    Dispatch(env, i, sub, Prepare(env, sub), vars)
  }

  // ---------------------------------------------------------------------------
  // The run

  /** Where a run ended: the store, the calls dispatched, how many requests completed,
      and the error that stopped it, if any. */
  datatype RunResult = RunResult(vars: map<string, string>, calls: seq<CallRequest>, completed: nat, error: Option<string>)

  /** The step the loop takes on request `i` with a store. */
  type Step = (nat, FileParser.RequestFile, map<string, string>) --> RequestResult

  /** The step can be taken on every request and store, and a request that lets the run
      go on has dispatched its call. */
  ghost predicate Total(step: Step) {
    forall i, req, vars :: step.requires(i, req, vars) && (step(i, req, vars).outcome.Ok? ==> step(i, req, vars).dispatched.Some?)
  }

  /** The loop from request `i` on, with the store and calls so far: each request sees the
      store the one before it left, and the first error stops the loop. */
  function RunFrom(step: Step, reqs: seq<FileParser.RequestFile>, i: nat, vars: map<string, string>, calls: seq<CallRequest>)
    : (r: RunResult)
    requires i <= |reqs| && Total(step)
    ensures i <= r.completed <= |reqs|
    ensures r.error.None? <==> r.completed == |reqs|
    ensures |calls| + (r.completed - i) <= |r.calls| <= |calls| + (r.completed - i) + 1
    ensures r.error.None? ==> |r.calls| == |calls| + (r.completed - i)
    ensures r.calls[..|calls|] == calls
    decreases |reqs| - i
  {
    if i == |reqs| then RunResult(vars, calls, i, None)
    else
      var s := step(i, reqs[i], vars);
      var calls' := if s.dispatched.Some? then calls + [s.dispatched.value] else calls;
      match s.outcome
      case Err(e) => RunResult(vars, calls', i, Some(e))
      case Ok(vars') =>
        var r := RunFrom(step, reqs, i + 1, vars', calls');
        assert calls'[..|calls|] == calls;
        assert r.calls[..|calls|] == r.calls[..|calls'|][..|calls|];
        r
  }

  /** `stores` threads the run from request `i`: `stores[0]` is the store request `i` runs
      with, and each later store is what the request before it returned, so request
      `i + j` runs with `stores[j]`. */
  ghost predicate Chain(step: Step, reqs: seq<FileParser.RequestFile>, i: nat, stores: seq<map<string, string>>)
    requires Total(step)
  {
    && 0 < |stores| && i + |stores| <= |reqs| + 1
    && forall j :: 0 <= j < |stores| - 1 ==> step(i + j, reqs[i + j], stores[j]).outcome == Ok(stores[j + 1])
  }

  /** From position `n` on, `calls` holds the call of each request of the chain, in order. */
  ghost predicate ChainCalls(step: Step, reqs: seq<FileParser.RequestFile>, i: nat, stores: seq<map<string, string>>,
                             calls: seq<CallRequest>, n: nat)
    requires Total(step) && Chain(step, reqs, i, stores)
  {
    && n + |stores| - 1 <= |calls|
    && forall j :: 0 <= j < |stores| - 1 ==> Some(calls[n + j]) == step(i + j, reqs[i + j], stores[j]).dispatched
  }

  /** A run that stopped with an error stopped at the step on its last store, and kept the
      call of that step, if it made one, after the `n` calls before it. */
  ghost predicate Stopped(step: Step, reqs: seq<FileParser.RequestFile>, r: RunResult, n: nat)
    requires Total(step)
  {
    r.error.Some? ==>
      && r.completed < |reqs|
      && var s := step(r.completed, reqs[r.completed], r.vars);
      && s.outcome == Err(r.error.value)
      && |r.calls| == n + (if s.dispatched.Some? then 1 else 0)
      && (s.dispatched.Some? ==> r.calls[n] == s.dispatched.value)
  }

  /** The run `r` from request `i`, which began with `vars` and `calls`, followed the chain
      `stores`: one completed request per link, the last store is the result, the new calls
      are those of the chain, and a failure is the step on the last store. */
  ghost predicate Threads(step: Step, reqs: seq<FileParser.RequestFile>, i: nat, vars: map<string, string>,
                          calls: seq<CallRequest>, r: RunResult, stores: seq<map<string, string>>)
    requires Total(step)
  {
    && Chain(step, reqs, i, stores) && stores[0] == vars
    && r.completed == i + |stores| - 1 && r.vars == stores[|stores| - 1]
    && ChainCalls(step, reqs, i, stores, r.calls, |calls|)
    && Stopped(step, reqs, r, |calls| + |stores| - 1)
  }

  /** A successful step in front of a chain extends it, together with its call. */
  lemma ChainCons(step: Step, reqs: seq<FileParser.RequestFile>, i: nat, vars: map<string, string>,
                  tail: seq<map<string, string>>, calls: seq<CallRequest>, n: nat)
    requires Total(step) && i < |reqs| && Chain(step, reqs, i + 1, tail)
    requires step(i, reqs[i], vars).outcome == Ok(tail[0])
    requires ChainCalls(step, reqs, i + 1, tail, calls, n + 1)
    requires n < |calls| && Some(calls[n]) == step(i, reqs[i], vars).dispatched
    ensures Chain(step, reqs, i, [vars] + tail)
    ensures ChainCalls(step, reqs, i, [vars] + tail, calls, n)
  {
    var stores := [vars] + tail;
    forall j | 0 <= j < |stores| - 1
      ensures step(i + j, reqs[i + j], stores[j]).outcome == Ok(stores[j + 1])
      ensures Some(calls[n + j]) == step(i + j, reqs[i + j], stores[j]).dispatched
    {
      if j > 0 {
        assert stores[j] == tail[j - 1] && stores[j + 1] == tail[j];
        assert i + j == (i + 1) + (j - 1) && n + j == (n + 1) + (j - 1);
      }
    }
  }

  /** The run hands each request the store the request before it returned: there is a
      chain of stores from the initial one that accounts for every completed request, its
      call, the final store, and the step that stopped the run. */
  lemma {:induction false} RunFromChain(step: Step, reqs: seq<FileParser.RequestFile>, i: nat,
                                        vars: map<string, string>, calls: seq<CallRequest>)
    requires i <= |reqs| && Total(step)
    ensures exists stores :: Threads(step, reqs, i, vars, calls, RunFrom(step, reqs, i, vars, calls), stores)
    decreases |reqs| - i
  {
    var r := RunFrom(step, reqs, i, vars, calls);
    if i == |reqs| {
      assert Threads(step, reqs, i, vars, calls, r, [vars]);
    } else {
      var s := step(i, reqs[i], vars);
      var calls' := if s.dispatched.Some? then calls + [s.dispatched.value] else calls;
      if s.outcome.Err? {
        assert r == RunResult(vars, calls', i, Some(s.outcome.error));
        assert Threads(step, reqs, i, vars, calls, r, [vars]);
      } else {
        RunFromOk(step, reqs, i, vars, calls);
      }
    }
  }

  /** The step of `RunFromChain` for a request that succeeds. */
  lemma {:induction false} RunFromOk(step: Step, reqs: seq<FileParser.RequestFile>, i: nat,
                                     vars: map<string, string>, calls: seq<CallRequest>)
    requires i < |reqs| && Total(step) && step(i, reqs[i], vars).outcome.Ok?
    ensures exists stores :: Threads(step, reqs, i, vars, calls, RunFrom(step, reqs, i, vars, calls), stores)
    decreases |reqs| - i, 0
  {
    var s := step(i, reqs[i], vars);
    var v := s.outcome.value;
    var calls' := calls + [s.dispatched.value];
    var r := RunFrom(step, reqs, i + 1, v, calls');
    assert RunFrom(step, reqs, i, vars, calls) == r;
    RunFromChain(step, reqs, i + 1, v, calls');
    var tail :| Threads(step, reqs, i + 1, v, calls', r, tail);
    assert r.calls[..|calls'|] == calls';
    assert r.calls[|calls|] == calls'[|calls|];
    ChainCons(step, reqs, i, vars, tail, r.calls, |calls|);
    assert Threads(step, reqs, i, vars, calls, r, [vars] + tail);
  }

  /** On a chain of the run's own step, each request of the file ran with its link. */
  lemma StepperChain(env: Env, reqs: seq<FileParser.RequestFile>, stores: seq<map<string, string>>)
    requires ValidEnv(env) && Chain(Stepper(env), reqs, 0, stores)
    ensures |stores| <= |reqs| + 1
    ensures forall j :: 0 <= j < |stores| - 1 ==> RunRequest(env, j, reqs[j], stores[j]).outcome == Ok(stores[j + 1])
  {
    forall j | 0 <= j < |stores| - 1
      ensures RunRequest(env, j, reqs[j], stores[j]).outcome == Ok(stores[j + 1])
    {
      assert Stepper(env)(0 + j, reqs[0 + j], stores[j]).outcome == Ok(stores[j + 1]);
    }
  }

  /** The run of a file: the first request runs with the empty store, and each later one
      with the store the request before it returned. */
  lemma RunRequestsChain(env: Env, reqs: seq<FileParser.RequestFile>)
    requires ValidEnv(env)
    ensures exists stores :: && Threads(Stepper(env), reqs, 0, map[], [], RunRequests(env, reqs), stores)
                             && |stores| <= |reqs| + 1
                             && forall j :: 0 <= j < |stores| - 1 ==> RunRequest(env, j, reqs[j], stores[j]).outcome == Ok(stores[j + 1])
  {
    var step := Stepper(env);
    var r := RunRequests(env, reqs);
    RunFromChain(step, reqs, 0, map[], []);
    var stores :| Threads(step, reqs, 0, map[], [], r, stores);
    StepperChain(env, reqs, stores);
  }

  /** Requests run strictly in order and see only what came before them: a run of the
      first `k` requests that fails is the whole run, and one that succeeds hands its store
      and calls on to request `k`. */
  lemma {:induction false} RunFromPrefix(step: Step, reqs: seq<FileParser.RequestFile>, k: nat, i: nat,
                                         vars: map<string, string>, calls: seq<CallRequest>)
    requires i <= k <= |reqs| && Total(step)
    ensures var p := RunFrom(step, reqs[..k], i, vars, calls);
      && (p.error.None? ==> RunFrom(step, reqs, i, vars, calls) == RunFrom(step, reqs, k, p.vars, p.calls))
      && (p.error.Some? ==> RunFrom(step, reqs, i, vars, calls) == p)
    decreases k - i
  {
    if i < k {
      assert reqs[..k][i] == reqs[i];
      var s := step(i, reqs[i], vars);
      if s.outcome.Ok? {
        var calls' := if s.dispatched.Some? then calls + [s.dispatched.value] else calls;
        RunFromPrefix(step, reqs, k, i + 1, s.outcome.value, calls');
      }
    }
  }

  /** The run's step: one request in the environment. */
  function Stepper(env: Env): (step: Step)
    requires ValidEnv(env)
    ensures Total(step)
    ensures forall i, req, vars :: step(i, req, vars) == RunRequest(env, i, req, vars)
  {
    (i: nat, req: FileParser.RequestFile, vars: map<string, string>) requires ValidEnv(env) => RunRequest(env, i, req, vars)
  }

  /** The run of a parsed file: an empty store and no calls to begin with. */
  function RunRequests(env: Env, reqs: seq<FileParser.RequestFile>): RunResult
    requires ValidEnv(env)
  {
    RunFrom(Stepper(env), reqs, 0, map[], [])
  }

  /** The same from the start of a file: later requests cannot change what earlier ones did. */
  lemma RunRequestsPrefix(env: Env, reqs: seq<FileParser.RequestFile>, k: nat)
    requires ValidEnv(env) && k <= |reqs|
    ensures var p := RunRequests(env, reqs[..k]);
      && (p.error.None? ==> RunRequests(env, reqs) == RunFrom(Stepper(env), reqs, k, p.vars, p.calls))
      && (p.error.Some? ==> RunRequests(env, reqs) == p)
  {
    RunFromPrefix(Stepper(env), reqs, k, 0, map[], []);
  }

  /** `run <file>`: a file that does not parse stops before any request. */
  function RunFile(env: Env, pd: FileParser.DurationParser, lines: seq<string>): (r: Result<RunResult, string>)
    requires ValidEnv(env)
    ensures FileParser.ParseMultiple(pd, lines).Err? ==>
      r == Err("failed to parse request file: " + FileParser.ParseMultiple(pd, lines).error)
    ensures FileParser.ParseMultiple(pd, lines).Ok? ==> r == Ok(RunRequests(env, FileParser.ParseMultiple(pd, lines).value))
  {
    match FileParser.ParseMultiple(pd, lines)
    case Err(e) => Err("failed to parse request file: " + e)
    case Ok(reqs) => Ok(RunRequests(env, reqs))
  }
}
