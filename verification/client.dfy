/** The pure parts of the dynamic client: protocol names, the normalised address and
    prefix, the URL of a method, and the transport option each protocol selects. */
module Client {
  import opened Wrappers
  import Text

  datatype Protocol = GRPC | GRPCWeb | Connect

  /** The lower-case name that selects each protocol. */
  function ProtocolName(p: Protocol): string {
    match p
    case GRPC => "grpc"
    case GRPCWeb => "grpc-web"
    case Connect => "connect"
  }

  /** `ParseProtocol`: the name, compared after ASCII lower-casing, or an error quoting
      the input as given. */
  function ParseProtocol(s: string): (r: Result<Protocol, string>)
    ensures r.Ok? ==> ProtocolName(r.value) == Text.ToLowerAscii(s)
    ensures r.Err? ==> forall p :: ProtocolName(p) != Text.ToLowerAscii(s)
    ensures r.Err? ==> r.error == "invalid protocol " + Text.Quote(s) + ", must be one of: grpc, grpc-web, connect"
  {
    var lower := Text.ToLowerAscii(s);
    if lower == "grpc" then Ok(GRPC)
    else if lower == "grpc-web" then Ok(GRPCWeb)
    else if lower == "connect" then Ok(Connect)
    else Err("invalid protocol " + Text.Quote(s) + ", must be one of: grpc, grpc-web, connect")
  }

  /** Text without upper-case ASCII letters is its own lower-case form. */
  lemma {:induction false} LowerOfLower(s: string)
    requires forall i :: 0 <= i < |s| ==> !('A' <= s[i] <= 'Z')
    ensures Text.ToLowerAscii(s) == s
    decreases |s|
  {
    if |s| > 0 {
      LowerOfLower(s[1..]);
      Text.HeadTail(s, []);
    }
  }

  /** Each protocol's name parses back to it. */
  lemma ParseProtocolName(p: Protocol)
    ensures ParseProtocol(ProtocolName(p)) == Ok(p)
  {
    var name := ProtocolName(p);
    LowerOfLower(name);
    match p
    case GRPC => assert Text.ToLowerAscii(name) == "grpc";
    case GRPCWeb =>
      assert Text.ToLowerAscii(name) == "grpc-web";
      assert name != "grpc";
    case Connect =>
      assert Text.ToLowerAscii(name) == "connect";
      assert name != "grpc" && name != "grpc-web";
  }

  /** Case does not matter: an input and its lower-case form select the same protocol. */
  lemma ParseProtocolIgnoresCase(s: string)
    ensures ParseProtocol(s).Ok? <==> ParseProtocol(Text.ToLowerAscii(s)).Ok?
    ensures ParseProtocol(s).Ok? ==> ParseProtocol(s).value == ParseProtocol(Text.ToLowerAscii(s)).value
  {
    LowerOfLower(Text.ToLowerAscii(s));
  }

  /** The client's fixed settings. */
  datatype Client = Client(address: string, prefix: string, protocol: Protocol, headers: map<string, string>)

  /** `NewClient`: one trailing `/` is removed from the address and from the prefix. */
  function NewClient(address: string, prefix: string, protocol: Protocol, headers: map<string, string>): (c: Client)
    ensures c.address == address || c.address + "/" == address
    ensures c.prefix == prefix || c.prefix + "/" == prefix
    ensures c.address != address <==> Text.HasSuffix(address, "/")
    ensures c.prefix != prefix <==> Text.HasSuffix(prefix, "/")
    ensures c.protocol == protocol && c.headers == headers
  {
    Client(Text.TrimSuffix(address, "/"), Text.TrimSuffix(prefix, "/"), protocol, headers)
  }

  /** The URL `Call` posts to: the address, the prefix when there is one, then
      `/<service full name>/<method name>`. */
  function Url(c: Client, serviceFullName: string, methodName: string): (u: string) {
    var base := if c.prefix != "" then c.address + c.prefix else c.address;
    base + "/" + serviceFullName + "/" + methodName
  }

  /** An address and a prefix each given with one trailing `/` lead to the same URL as
      without it: the slashes are not doubled. */
  lemma UrlIgnoresTrailingSlash(a: string, p: string, proto: Protocol, h: map<string, string>, svc: string, m: string)
    requires !Text.HasSuffix(a, "/") && !Text.HasSuffix(p, "/")
    ensures Url(NewClient(a + "/", p + "/", proto, h), svc, m) == Url(NewClient(a, p, proto, h), svc, m)
    ensures Url(NewClient(a, p, proto, h), svc, m) == a + p + "/" + svc + "/" + m
  {
    Text.AppendParts(a, "/");
    Text.AppendParts(p, "/");
    assert Text.HasSuffix(a + "/", "/") && Text.HasSuffix(p + "/", "/");
    if p == "" {
      Text.EmptyAppend(a);
    }
  }

  /** The URL of a new client: the address and the prefix, each without one trailing `/`,
      then the method's path. */
  lemma UrlOfNewClient(a: string, p: string, proto: Protocol, h: map<string, string>, svc: string, m: string)
    ensures Url(NewClient(a, p, proto, h), svc, m) == Text.TrimSuffix(a, "/") + Text.TrimSuffix(p, "/") + "/" + svc + "/" + m
  {
    var c := NewClient(a, p, proto, h);
    if c.prefix == "" {
      Text.EmptyAppend(c.address);
    }
  }

  /** The URL ends with the method's path, whatever the address and prefix. */
  lemma UrlEndsWithPath(c: Client, svc: string, m: string)
    ensures Text.HasSuffix(Url(c, svc, m), "/" + svc + "/" + m)
    ensures Text.HasPrefix(Url(c, svc, m), c.address)
  {
    var base := if c.prefix != "" then c.address + c.prefix else c.address;
    var path := "/" + svc + "/" + m;
    Text.AppendAssoc(base + "/", svc, "/");
    Text.AppendAssoc(base + "/" + svc, "/", m);
    Text.AppendAssoc(base, "/", svc);
    Text.AppendAssoc(base, "/" + svc, "/" + m);
    Text.AppendAssoc("/", svc, "/" + m);
    Text.AppendAssoc("/" + svc, "/", m);
    assert Url(c, svc, m) == base + path;
    Text.AppendParts(base, path);
    Text.AppendParts(c.address, c.prefix);
    Text.AppendAssoc(c.address, c.prefix, path);
    Text.AppendParts(c.address, c.prefix + path);
  }

  /** The transport options `Call` passes besides its codec. */
  datatype CallOption = WithGRPC | WithGRPCWeb

  /** gRPC and gRPC-Web each select their option; Connect is the transport's default. */
  function Options(p: Protocol): (opts: seq<CallOption>)
    ensures |opts| <= 1
  {
    match p
    case GRPC => [WithGRPC]
    case GRPCWeb => [WithGRPCWeb]
    case Connect => []
  }

  /** The protocol a list of options selects. */
  function ProtocolOf(opts: seq<CallOption>): Protocol {
    if |opts| == 0 then Connect
    else if opts[0] == WithGRPC then GRPC
    else GRPCWeb
  }

  /** Distinct protocols select distinct options: the options determine the protocol. */
  lemma OptionsDetermineProtocol(p: Protocol)
    ensures ProtocolOf(Options(p)) == p
    ensures forall q :: Options(q) == Options(p) ==> q == p
  {
    forall q | Options(q) == Options(p) ensures q == p {
      assert ProtocolOf(Options(q)) == q;
    }
  }
}
