/** The `call` command's own logic: its flag defaults and the parsing of repeated
    `--header 'Key: Value'` flags. */
module CallCmd {
  import opened Wrappers
  import Text
  import Client
  import FileParser

  /** The command's flags, with `timeout` in nanoseconds. */
  datatype Flags = Flags(
    address: string,
    service: string,
    methodName: string,
    data: string,
    prefix: string,
    headers: seq<string>,
    protocol: string,
    timeout: int)

  /** The flag values when none is given. */
  function DefaultFlags(): (f: Flags)
    ensures f.data == FileParser.DefaultBody
    ensures f.protocol == FileParser.DefaultProtocol
    ensures f.timeout == FileParser.DefaultTimeout
    ensures |f.headers| == 0 && f.prefix == ""
  {
    Flags("", "", "", "{}", "", [], "grpc-web", 30 * FileParser.Second)
  }

  /** The default protocol flag selects gRPC-Web. */
  lemma DefaultProtocolIsGrpcWeb()
    ensures Client.ParseProtocol(DefaultFlags().protocol) == Ok(Client.GRPCWeb)
  {
    Client.ParseProtocolName(Client.GRPCWeb);
  }

  function HeaderError(h: string): string {
    "invalid header format " + Text.Quote(h) + ", expected 'Key: Value'"
  }

  /** A flag is split as a `key: value` line of a request file (`FileParser.Entry`): a flag
      with a colon is a key without colons, the colon, and a value, and yields both trimmed. */
  lemma SplitHeaderParts(h: string)
    requires ':' in h
    ensures exists k, v :: ':' !in k && h == k + ":" + v && FileParser.Entry(h) == Some((Text.TrimSpace(k), Text.TrimSpace(v)))
  {
    var (k, v) := Text.SplitFirst(h, ':').value;
    assert h == k + ":" + v;
    SplitHeaderAtFirstColon(k, v);
    assert ':' !in k && h == k + ":" + v && FileParser.Entry(h) == Some((Text.TrimSpace(k), Text.TrimSpace(v)));
  }

  /** The split is at the first colon only, so a value may itself hold colons. */
  lemma SplitHeaderAtFirstColon(k: string, v: string)
    requires ':' !in k
    ensures FileParser.Entry(k + ":" + v) == Some((Text.TrimSpace(k), Text.TrimSpace(v)))
  {
    var h := k + ":" + v;
    Text.AppendAssoc(k, ":", v);
    Text.AppendParts(k, ":" + v);
    Text.IndexOfFirst(h, ':', |k|);
    Text.ConsParts(':', v);
    Text.DropDrop(h, |k|, 1);
  }

  /** The header loop from a given map: the first flag without a colon stops it, and a
      later flag with the same key overwrites an earlier one. */
  function HeaderFlags(hs: seq<string>, acc: map<string, string>): Result<map<string, string>, string>
    decreases |hs|
  {
    if |hs| == 0 then Ok(acc)
    else match FileParser.Entry(hs[0])
      case None => Err(HeaderError(hs[0]))
      case Some((k, v)) => HeaderFlags(hs[1..], acc[k := v])
  }

  /** The loop of the command: the same map or error as `HeaderFlags`. */
  method ParseHeaderFlags(hs: seq<string>) returns (r: Result<map<string, string>, string>)
    ensures r == HeaderFlags(hs, map[])
  {
    var m: map<string, string> := map[];
    var i := 0;
    while i < |hs|
      invariant 0 <= i <= |hs|
      invariant HeaderFlags(hs[i..], m) == HeaderFlags(hs, map[])
    {
      assert hs[i..][0] == hs[i] && hs[i..][1..] == hs[i + 1..];
      var parts := FileParser.Entry(hs[i]);
      if parts.None? {
        return Err(HeaderError(hs[i]));
      }
      m := m[parts.value.0 := parts.value.1];
      i := i + 1;
    }
    assert |hs[i..]| == 0;
    return Ok(m);
  }

  /** A reference for the map: the value of the last flag whose key is `k`. */
  function LastValue(hs: seq<string>, k: string): Option<string>
    decreases |hs|
  {
    if |hs| == 0 then None
    else
      var s := FileParser.Entry(hs[|hs| - 1]);
      if s.Some? && s.value.0 == k then Some(s.value.1) else LastValue(hs[..|hs| - 1], k)
  }

  /** `LastValue` seen from the front: the tail's answer wins, else the head's. */
  lemma {:induction false} LastValueCons(hs: seq<string>, k: string)
    requires |hs| > 0
    ensures LastValue(hs, k) ==
      if LastValue(hs[1..], k).Some? then LastValue(hs[1..], k)
      else if FileParser.Entry(hs[0]).Some? && FileParser.Entry(hs[0]).value.0 == k then Some(FileParser.Entry(hs[0]).value.1)
      else None
    decreases |hs|
  {
    var n := |hs|;
    if n > 1 {
      assert hs[1..][..n - 2] == hs[..n - 1][1..];
      assert hs[1..][n - 2] == hs[n - 1];
      var s := FileParser.Entry(hs[n - 1]);
      if !(s.Some? && s.value.0 == k) {
        LastValueCons(hs[..n - 1], k);
      }
    } else {
      assert hs[..0] == [];
    }
  }

  /** Every flag has a colon. */
  predicate AllColons(hs: seq<string>) {
    forall i :: 0 <= i < |hs| ==> ':' in hs[i]
  }

  lemma AllColonsCons(hs: seq<string>)
    requires |hs| > 0
    ensures AllColons(hs) <==> ':' in hs[0] && AllColons(hs[1..])
  {
    assert forall i :: 1 <= i < |hs| ==> hs[i] == hs[1..][i - 1];
  }

  /** The header loop succeeds exactly when every flag has a colon. */
  lemma {:induction false} HeaderFlagsOk(hs: seq<string>, acc: map<string, string>)
    ensures HeaderFlags(hs, acc).Ok? <==> AllColons(hs)
    decreases |hs|
  {
    if |hs| > 0 {
      AllColonsCons(hs);
      var s := FileParser.Entry(hs[0]);
      if s.Some? {
        var acc' := acc[s.value.0 := s.value.1];
        HeaderFlagsOk(hs[1..], acc');
        assert HeaderFlags(hs, acc) == HeaderFlags(hs[1..], acc');
      } else {
        assert HeaderFlags(hs, acc).Err?;
      }
    }
  }

  /** On success each key holds the value of its last flag; keys no flag names keep
      what they had. */
  lemma {:induction false} HeaderFlagsLast(hs: seq<string>, acc: map<string, string>, k: string)
    requires HeaderFlags(hs, acc).Ok?
    ensures var m := HeaderFlags(hs, acc).value;
      && (k in m <==> k in acc || LastValue(hs, k).Some?)
      && (LastValue(hs, k).Some? ==> m[k] == LastValue(hs, k).value)
      && (LastValue(hs, k).None? && k in acc ==> m[k] == acc[k])
    decreases |hs|
  {
    if |hs| > 0 {
      var s := FileParser.Entry(hs[0]);
      HeaderFlagsLast(hs[1..], acc[s.value.0 := s.value.1], k);
      LastValueCons(hs, k);
    }
  }

  /** `j` is the first flag without a colon. */
  predicate FirstMissing(hs: seq<string>, j: int) {
    0 <= j < |hs| && ':' !in hs[j] && forall i :: 0 <= i < j ==> ':' in hs[i]
  }

  /** On failure the error quotes the first flag without a colon. */
  lemma {:induction false} HeaderFlagsError(hs: seq<string>, acc: map<string, string>)
    requires HeaderFlags(hs, acc).Err?
    ensures exists j :: FirstMissing(hs, j) && HeaderFlags(hs, acc).error == HeaderError(hs[j])
    decreases |hs|
  {
    var s := FileParser.Entry(hs[0]);
    if s.Some? {
      var acc' := acc[s.value.0 := s.value.1];
      HeaderFlagsError(hs[1..], acc');
      var j :| FirstMissing(hs[1..], j) && HeaderFlags(hs[1..], acc').error == HeaderError(hs[1..][j]);
      assert hs[1..][j] == hs[j + 1];
      assert forall i :: 1 <= i < j + 1 ==> hs[i] == hs[1..][i - 1];
      assert FirstMissing(hs, j + 1);
    } else {
      assert FirstMissing(hs, 0);
    }
  }
}
