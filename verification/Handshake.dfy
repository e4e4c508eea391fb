/** The bridge handshake of `internal/bridge/handshake.go`, both sides over the line tunnel. */
module Handshake {
  import opened CommonSubsequence
  import opened ControlTunnel
  import Text
  import opened Wrappers

  const PROTOCOL_VERSION := "timekeeper-bridge/v1"
  const METHOD_HELLO := "hello"
  const METHOD_HELLO_OK := "hello_ok"
  const METHOD_ERROR := "error"

  // ---- Messages ------------------------------------------------------------

  /** The parameter values the two sides exchange; `Other` is any JSON value of another type. */
  datatype Value = Null | Str(s: string) | Strs(items: seq<string>) | Dict(fields: map<string, string>) | Other

  datatype Envelope = Envelope(id: string, verb: string, params: map<string, Value>)

  datatype HelloParams = HelloParams(protocolVersion: string, pluginId: string, kind: string,
                                     config: map<string, string>, capabilityBase: string)

  datatype HelloResult = HelloResult(protocolVersion: string, pluginId: string, declaredCapabilities: seq<string>)

  function HelloMap(p: HelloParams): map<string, Value> {
    map["protocol_version" := Str(p.protocolVersion), "plugin_id" := Str(p.pluginId), "kind" := Str(p.kind)]
      + (if p.config != map[] then map["config" := Dict(p.config)] else map[])
      + (if p.capabilityBase != "" then map["capability_base" := Str(p.capabilityBase)] else map[])
  }

  /** Decoding a field into a string: an absent or null one stays empty, one of another type is an error. */
  function StrField(m: map<string, Value>, name: string): Option<string> {
    if name !in m || m[name].Null? then Some("") else if m[name].Str? then Some(m[name].s) else None
  }

  function DictField(m: map<string, Value>, name: string): Option<map<string, string>> {
    if name !in m || m[name].Null? then Some(map[]) else if m[name].Dict? then Some(m[name].fields) else None
  }

  function StrsField(m: map<string, Value>, name: string): Option<seq<string>> {
    if name !in m || m[name].Null? then Some([]) else if m[name].Strs? then Some(m[name].items) else None
  }

  function DecodeHello(m: map<string, Value>): Option<HelloParams> {
    var version, id, kind := StrField(m, "protocol_version"), StrField(m, "plugin_id"), StrField(m, "kind");
    var config, base := DictField(m, "config"), StrField(m, "capability_base");
    if version.Some? && id.Some? && kind.Some? && config.Some? && base.Some?
    then Some(HelloParams(version.value, id.value, kind.value, config.value, base.value)) else None
  }

  function DecodeResult(m: map<string, Value>): Option<HelloResult> {
    var version, id := StrField(m, "protocol_version"), StrField(m, "plugin_id");
    var capabilities := StrsField(m, "declared_capabilities");
    if version.Some? && id.Some? && capabilities.Some?
    then Some(HelloResult(version.value, id.value, capabilities.value)) else None
  }

  function ResultMap(pluginId: string, capabilities: seq<string>): map<string, Value> {
    map["protocol_version" := Str(PROTOCOL_VERSION), "plugin_id" := Str(pluginId), "declared_capabilities" := Strs(capabilities)]
  }

  lemma ResultRoundTrip(pluginId: string, capabilities: seq<string>)
    ensures DecodeResult(ResultMap(pluginId, capabilities)) == Some(HelloResult(PROTOCOL_VERSION, pluginId, capabilities))
  {}

  /** Leaving out empty optional fields loses nothing. */
  lemma HelloRoundTrip(p: HelloParams)
    ensures DecodeHello(HelloMap(p)) == Some(p)
  {}

  /** Decoding fails exactly when a field is there, not null, and of another type; otherwise a field that is missing or null
      is empty and any other is what was sent. */
  lemma DecodeResultIff(m: map<string, Value>)
    ensures DecodeResult(m).None? <==>
              || ("protocol_version" in m && !m["protocol_version"].Null? && !m["protocol_version"].Str?)
              || ("plugin_id" in m && !m["plugin_id"].Null? && !m["plugin_id"].Str?)
              || ("declared_capabilities" in m && !m["declared_capabilities"].Null? && !m["declared_capabilities"].Strs?)
    ensures DecodeResult(m).Some? ==>
              var r := DecodeResult(m).value;
              && (if "protocol_version" in m && !m["protocol_version"].Null? then m["protocol_version"] == Str(r.protocolVersion) else r.protocolVersion == "")
              && (if "plugin_id" in m && !m["plugin_id"].Null? then m["plugin_id"] == Str(r.pluginId) else r.pluginId == "")
              && (if "declared_capabilities" in m && !m["declared_capabilities"].Null?
                  then m["declared_capabilities"] == Strs(r.declaredCapabilities) else r.declaredCapabilities == [])
  {}

  lemma DecodeHelloIff(m: map<string, Value>)
    ensures DecodeHello(m).None? <==>
              || (exists name :: name in ["protocol_version", "plugin_id", "kind", "capability_base"]
                    && name in m && !m[name].Null? && !m[name].Str?)
              || ("config" in m && !m["config"].Null? && !m["config"].Dict?)
  {
    var names := ["protocol_version", "plugin_id", "kind", "capability_base"];
    assert names[0] in names && names[1] in names && names[2] in names && names[3] in names;
  }

  // ---- Capabilities --------------------------------------------------------

  function TrimAll(list: seq<string>): seq<string> {
    seq(|list|, k requires 0 <= k < |list| => Text.Trim(list[k]))
  }

  /** Each element once, where it first occurs. */
  function Dedup(list: seq<string>): seq<string> {
    if list == [] then []
    else
      var init, last := list[..|list| - 1], list[|list| - 1];
      if last in init then Dedup(init) else Dedup(init) + [last]
  }

  ghost predicate Distinct(list: seq<string>) {
    forall i, j :: 0 <= i < j < |list| ==> list[i] != list[j]
  }

  lemma DedupExtends(list: seq<string>, x: string)
    ensures Dedup(list + [x]) == if x in list then Dedup(list) else Dedup(list) + [x]
  {
    assert (list + [x])[..|list|] == list;
  }

  lemma {:induction false} DedupSameElements(list: seq<string>)
    ensures Distinct(Dedup(list))
    ensures forall x :: x in Dedup(list) <==> x in list
    decreases |list|
  {
    if list != [] {
      var init, last := list[..|list| - 1], list[|list| - 1];
      DedupSameElements(init);
      assert list == init + [last];
    }
  }

  /** Deduplication keeps exactly the elements there are, each at its first occurrence, in order. */
  lemma {:induction false} DedupKeepsFirsts(list: seq<string>) returns (at: seq<nat>)
    ensures Embeds(Dedup(list), list, at)
    ensures forall k :: 0 <= k < |at| ==> list[at[k]] !in list[..at[k]]
    decreases |list|
  {
    if list == [] {
      at := [];
    } else {
      var init, last := list[..|list| - 1], list[|list| - 1];
      at := DedupKeepsFirsts(init);
      assert list == init + [last];
      assert forall k :: 0 <= k < |at| ==> list[..at[k]] == init[..at[k]];
      if last in init {
        EmbedsLonger(Dedup(init), init, at, last);
      } else {
        EmbedsBoth(Dedup(init), init, at, last);
        at := at + [|init|];
      }
    }
  }

  predicate NoneEmpty(list: seq<string>) {
    "" !in list
  }

  /** `trimmed` is the list with the white space taken off both ends of every element. */
  ghost predicate AreTrimmed(list: seq<string>, trimmed: seq<string>) {
    |trimmed| == |list| && forall k :: 0 <= k < |list| ==> Text.IsTrimmed(list[k], trimmed[k])
  }

  lemma TrimAllAreTrimmed(list: seq<string>)
    ensures AreTrimmed(list, TrimAll(list))
  {
    forall k | 0 <= k < |list| ensures Text.IsTrimmed(list[k], TrimAll(list)[k]) {
      Text.TrimIsTrimmed(list[k]);
    }
  }

  /** The capability loop: fails on an empty capability, otherwise drops repetitions. */
  method NormaliseCapabilities(declared: seq<string>) returns (capabilities: Option<seq<string>>, ghost trimmed: seq<string>)
    ensures trimmed == TrimAll(declared) && AreTrimmed(declared, trimmed)
    ensures capabilities == if "" in trimmed then None else Some(Dedup(trimmed))
  {
    trimmed := TrimAll(declared);
    TrimAllAreTrimmed(declared);
    var kept: seq<string> := [];
    var seen: set<string> := {};
    var k := 0;
    while k < |declared|
      invariant 0 <= k <= |declared|
      invariant NoneEmpty(trimmed[..k])
      invariant kept == Dedup(trimmed[..k])
      invariant forall x :: x in seen <==> x in trimmed[..k]
    {
      var capability := Text.Trim(declared[k]);
      assert trimmed[..k + 1] == trimmed[..k] + [capability];
      if capability == "" {
        assert trimmed[k] in trimmed;
        return None, trimmed;
      }
      DedupExtends(trimmed[..k], capability);
      k := k + 1;
      if capability !in seen {
        seen := seen + {capability};
        kept := kept + [capability];
      }
    }
    assert trimmed[..|declared|] == trimmed;
    return Some(kept), trimmed;
  }

  // ---- The two sides -------------------------------------------------------

  datatype Url = BadUrl | Url(scheme: string, host: string, port: string)

  predicate IsLoopback(u: Url) {
    && u.Url? && u.scheme == "http" && u.port != ""
    && (u.host == "127.0.0.1" || u.host == "localhost" || u.host == "::1")
  }

  datatype Failure = TunnelClosed | Undecodable | HandshakeFailed | ProtocolMismatch

  datatype Accepted = Accepted(pluginId: string, kind: string, capabilities: seq<string>, base: string)

  datatype CoreOutcome = CoreOk(result: Accepted) | CoreFails(failure: Failure)

  datatype PluginOutcome = PluginOk(params: HelloParams) | PluginFails(failure: Failure)

  /** Core's parameters with the protocol version filled in. */
  function Filled(p: HelloParams): HelloParams {
    if p.protocolVersion == "" then p.(protocolVersion := PROTOCOL_VERSION) else p
  }

  function Hello(p: HelloParams): Envelope {
    Envelope("", METHOD_HELLO, HelloMap(Filled(p)))
  }

  /** Core's judgement of what came back; `parse` is the URL parser. */
  function Judge(p: HelloParams, env: Envelope, parse: string -> Url): CoreOutcome {
    if env.verb == METHOD_ERROR || env.verb != METHOD_HELLO_OK then CoreFails(HandshakeFailed)
    else
      match DecodeResult(env.params)
      case None => CoreFails(HandshakeFailed)
      case Some(r) =>
        if r.protocolVersion != PROTOCOL_VERSION then CoreFails(ProtocolMismatch)
        else if r.pluginId != p.pluginId then CoreFails(HandshakeFailed)
        else if !NoneEmpty(TrimAll(r.declaredCapabilities)) then CoreFails(HandshakeFailed)
        else
          var base := Text.Trim(p.capabilityBase);
          if base != "" && !IsLoopback(parse(base)) then CoreFails(HandshakeFailed)
          else CoreOk(Accepted(r.pluginId, p.kind, Dedup(TrimAll(r.declaredCapabilities)), base))
  }

  function Refusal(id: string, code: string, detail: string): Envelope {
    Envelope(id, METHOD_ERROR, map["code" := Str(code), "detail" := Str(detail)])
  }

  function VersionDetail(quote: string -> string, p: HelloParams): string {
    "plugin speaks " + quote(PROTOCOL_VERSION) + ", core speaks " + quote(p.protocolVersion)
  }

  function PluginDetail(quote: string -> string, p: HelloParams, pluginId: string): string {
    "core asked for " + quote(p.pluginId) + ", this box is " + quote(pluginId)
  }

  /** The plugin's answer to a message, if it makes one, and what it concludes; `quote` is Go's `%q`. */
  function Serve(pluginId: string, capabilities: seq<string>, quote: string -> string, env: Envelope): (Option<Envelope>, PluginOutcome) {
    if env.verb != METHOD_HELLO then (None, PluginFails(HandshakeFailed))
    else
      match DecodeHello(env.params)
      case None => (None, PluginFails(HandshakeFailed))
      case Some(p) =>
        if p.protocolVersion != PROTOCOL_VERSION
        then (Some(Refusal(env.id, "protocol_mismatch", VersionDetail(quote, p))), PluginFails(ProtocolMismatch))
        else if p.pluginId != pluginId
        then (Some(Refusal(env.id, "plugin_mismatch", PluginDetail(quote, p, pluginId))), PluginFails(HandshakeFailed))
        else (Some(Envelope(env.id, METHOD_HELLO_OK, ResultMap(pluginId, capabilities))), PluginOk(p))
  }

  /** A line encoding of envelopes that loses nothing and never contains a newline, as JSON is for valid UTF-8. */
  datatype Codec = Codec(encode: Envelope -> string, decode: string -> Option<Envelope>) {
    ghost predicate Valid() {
      forall e :: Text.IsLine(encode(e)) && decode(encode(e)) == Some(e)
    }
  }

  datatype Received = Closed | Garbled | Got(env: Envelope)

  /** What reading one message from these bytes gives. */
  function Receive(codec: Codec, stream: string): Received {
    match ReadLine(stream)
    case None => Closed
    case Some((line, _)) =>
      match codec.decode(line)
      case None => Garbled
      case Some(env) => Got(env)
  }

  function Wire(codec: Codec, message: Option<Envelope>): string {
    match message
    case None => ""
    case Some(env) => Frame([codec.encode(env)])
  }

  /** What core concludes from the bytes that come back. */
  function Concludes(codec: Codec, p: HelloParams, stream: string, parse: string -> Url): CoreOutcome {
    match Receive(codec, stream)
    case Closed => CoreFails(TunnelClosed)
    case Garbled => CoreFails(Undecodable)
    case Got(env) => Judge(p, env, parse)
  }

  /** What the plugin makes of the bytes that reach it. */
  function Answers(codec: Codec, pluginId: string, capabilities: seq<string>, quote: string -> string, stream: string)
    : (Option<Envelope>, PluginOutcome)
  {
    match Receive(codec, stream)
    case Closed => (None, PluginFails(TunnelClosed))
    case Garbled => (None, PluginFails(Undecodable))
    case Got(env) => Serve(pluginId, capabilities, quote, env)
  }

  /** The whole conversation: the plugin reads what core wrote, and core reads what the plugin wrote. */
  function Converse(codec: Codec, p: HelloParams, pluginId: string, capabilities: seq<string>, quote: string -> string,
                    parse: string -> Url)
    : (CoreOutcome, PluginOutcome)
  {
    var (answer, plugin) := Answers(codec, pluginId, capabilities, quote, Wire(codec, Some(Hello(p))));
    (Concludes(codec, p, Wire(codec, answer), parse), plugin)
  }

  method SendEnvelope(t: Tunnel, codec: Codec, env: Envelope)
    modifies t`outgoing
    ensures t.outgoing == old(t.outgoing) + Wire(codec, Some(env))
  {
    t.Send(codec.encode(env), []);
  }

  method ReceiveEnvelope(t: Tunnel, codec: Codec) returns (received: Received)
    modifies t`incoming
    ensures received == Receive(codec, old(t.incoming))
  {
    var line := t.Receive();
    if line.None? {
      return Closed;
    }
    var env := codec.decode(line.value);
    received := if env.Some? then Got(env.value) else Garbled;
  }

  /** Core's side, step by step: writes exactly one hello, and concludes from the bytes that come back. */
  method PerformHandshake(t: Tunnel, codec: Codec, params: HelloParams, parse: string -> Url) returns (outcome: CoreOutcome)
    modifies t
    ensures t.outgoing == old(t.outgoing) + Wire(codec, Some(Hello(params)))
    ensures outcome == Concludes(codec, params, old(t.incoming), parse)
  {
    var version := if params.protocolVersion == "" then PROTOCOL_VERSION else params.protocolVersion;
    SendEnvelope(t, codec, Envelope("", METHOD_HELLO, HelloMap(params.(protocolVersion := version))));
    var received := ReceiveEnvelope(t, codec);
    if received.Closed? { return CoreFails(TunnelClosed); }
    if received.Garbled? { return CoreFails(Undecodable); }
    var env := received.env;
    if env.verb == METHOD_ERROR { return CoreFails(HandshakeFailed); }
    if env.verb != METHOD_HELLO_OK { return CoreFails(HandshakeFailed); }
    var result := DecodeResult(env.params);
    if result.None? { return CoreFails(HandshakeFailed); }
    if result.value.protocolVersion != PROTOCOL_VERSION { return CoreFails(ProtocolMismatch); }
    if result.value.pluginId != params.pluginId { return CoreFails(HandshakeFailed); }
    var capabilities, trimmed := NormaliseCapabilities(result.value.declaredCapabilities);
    if capabilities.None? { return CoreFails(HandshakeFailed); }
    var base := Text.Trim(params.capabilityBase);
    if base != "" && !IsLoopback(parse(base)) { return CoreFails(HandshakeFailed); }
    outcome := CoreOk(Accepted(result.value.pluginId, params.kind, capabilities.value, base));
  }

  /** The plugin's side, step by step: writes at most one answer. */
  method ServeHandshake(t: Tunnel, codec: Codec, pluginId: string, capabilities: seq<string>, quote: string -> string)
    returns (outcome: PluginOutcome)
    modifies t
    ensures outcome == Answers(codec, pluginId, capabilities, quote, old(t.incoming)).1
    ensures t.outgoing == old(t.outgoing) + Wire(codec, Answers(codec, pluginId, capabilities, quote, old(t.incoming)).0)
  {
    var received := ReceiveEnvelope(t, codec);
    assert t.outgoing == t.outgoing + "";
    if received.Closed? { return PluginFails(TunnelClosed); }
    if received.Garbled? { return PluginFails(Undecodable); }
    var env := received.env;
    if env.verb != METHOD_HELLO { return PluginFails(HandshakeFailed); }
    var params := DecodeHello(env.params);
    if params.None? { return PluginFails(HandshakeFailed); }
    if params.value.protocolVersion != PROTOCOL_VERSION {
      SendEnvelope(t, codec, Refusal(env.id, "protocol_mismatch", VersionDetail(quote, params.value)));
      return PluginFails(ProtocolMismatch);
    }
    if params.value.pluginId != pluginId {
      SendEnvelope(t, codec, Refusal(env.id, "plugin_mismatch", PluginDetail(quote, params.value, pluginId)));
      return PluginFails(HandshakeFailed);
    }
    SendEnvelope(t, codec, Envelope(env.id, METHOD_HELLO_OK, ResultMap(pluginId, capabilities)));
    outcome := PluginOk(params.value);
  }

  lemma WireRoundTrip(codec: Codec, env: Envelope)
    requires codec.Valid()
    ensures Receive(codec, Wire(codec, Some(env))) == Got(env)
  {
    var line := codec.encode(env);
    assert Frame([line]) == line + [NEWLINE] + "" by { assert [line][1..] == []; }
    ReadLineFirst(line, "");
  }

  predicate VersionAgreed(p: HelloParams) {
    p.protocolVersion == "" || p.protocolVersion == PROTOCOL_VERSION
  }

  predicate BaseAcceptable(p: HelloParams, parse: string -> Url) {
    Text.Trim(p.capabilityBase) == "" || IsLoopback(parse(Text.Trim(p.capabilityBase)))
  }

  /** The plugin's answer to core's hello, and core's judgement of it. */
  lemma Answered(p: HelloParams, pluginId: string, capabilities: seq<string>, quote: string -> string, parse: string -> Url)
    ensures var (answer, plugin) := Serve(pluginId, capabilities, quote, Hello(p));
            && answer.Some?
            && (plugin.PluginOk? <==> VersionAgreed(p) && p.pluginId == pluginId)
            && (plugin.PluginOk? ==> plugin.params == Filled(p))
            && Judge(p, answer.value, parse) ==
                 if plugin.PluginOk? && NoneEmpty(TrimAll(capabilities)) && BaseAcceptable(p, parse)
                 then CoreOk(Accepted(pluginId, p.kind, Dedup(TrimAll(capabilities)), Text.Trim(p.capabilityBase)))
                 else CoreFails(HandshakeFailed)
  {
    HelloRoundTrip(Filled(p));
    ResultRoundTrip(pluginId, capabilities);
  }

  /** What each side concludes, for all parameters: the plugin succeeds exactly when version and ID agree, core when
      moreover every trimmed capability is non-empty and the base is acceptable. */
  lemma Agreement(codec: Codec, p: HelloParams, pluginId: string, capabilities: seq<string>, quote: string -> string,
                  parse: string -> Url)
    requires codec.Valid()
    ensures var (core, plugin) := Converse(codec, p, pluginId, capabilities, quote, parse);
            && (plugin.PluginOk? <==> VersionAgreed(p) && p.pluginId == pluginId)
            && (core.CoreOk? <==>
                  && plugin.PluginOk? && "" !in TrimAll(capabilities)
                  && var base := Text.Trim(p.capabilityBase);
                     base == "" || (parse(base).Url? && parse(base).scheme == "http" && parse(base).port != ""
                                    && parse(base).host in {"127.0.0.1", "localhost", "::1"}))
            && AreTrimmed(capabilities, TrimAll(capabilities)) && Text.IsTrimmed(p.capabilityBase, Text.Trim(p.capabilityBase))
            && (plugin.PluginOk? ==> plugin.params == Filled(p))
            && (core.CoreOk? ==>
                  core.result == Accepted(pluginId, p.kind, Dedup(TrimAll(capabilities)), Text.Trim(p.capabilityBase)))
  {
    TrimAllAreTrimmed(capabilities);
    Text.TrimIsTrimmed(p.capabilityBase);
    WireRoundTrip(codec, Hello(p));
    Answered(p, pluginId, capabilities, quote, parse);
    WireRoundTrip(codec, Serve(pluginId, capabilities, quote, Hello(p)).0.value);
  }

  /** Whatever comes back, core accepts exactly an affirmative answer with the right version and ID, no empty capability, and
      a base that is empty or plain HTTP on the loopback with a port. */
  lemma AcceptsIff(p: HelloParams, env: Envelope, parse: string -> Url)
    ensures Judge(p, env, parse).CoreOk? <==>
              && env.verb == "hello_ok" && DecodeResult(env.params).Some?
              && var r, base := DecodeResult(env.params).value, Text.Trim(p.capabilityBase);
                 && r.protocolVersion == PROTOCOL_VERSION && r.pluginId == p.pluginId
                 && "" !in TrimAll(r.declaredCapabilities)
                 && (base == "" || (parse(base).Url? && parse(base).scheme == "http" && parse(base).port != ""
                                    && parse(base).host in {"127.0.0.1", "localhost", "::1"}))
    ensures Judge(p, env, parse) == CoreFails(ProtocolMismatch) <==>
              && env.verb == "hello_ok" && DecodeResult(env.params).Some?
              && DecodeResult(env.params).value.protocolVersion != PROTOCOL_VERSION
    ensures Judge(p, env, parse).CoreFails? ==> Judge(p, env, parse).failure in {HandshakeFailed, ProtocolMismatch}
  {}

  /** Whatever reaches it, a plugin accepts exactly a hello with the right version and its own ID, and answers every hello it
      can decode. */
  lemma ServesIff(pluginId: string, capabilities: seq<string>, quote: string -> string, env: Envelope)
    ensures var (answer, plugin) := Serve(pluginId, capabilities, quote, env);
            && (answer.Some? <==> env.verb == "hello" && DecodeHello(env.params).Some?)
            && (plugin.PluginOk? <==>
                  && answer.Some? && DecodeHello(env.params).value.protocolVersion == PROTOCOL_VERSION
                  && DecodeHello(env.params).value.pluginId == pluginId)
            && (plugin.PluginOk? ==> plugin.params == DecodeHello(env.params).value)
            && (answer.Some? ==> answer.value.id == env.id && answer.value.verb == if plugin.PluginOk? then "hello_ok" else "error")
  {}

  /** What a plugin answers to a hello it cannot accept: a refusal that names both sides' versions or IDs. */
  lemma Refuses(pluginId: string, capabilities: seq<string>, quote: string -> string, p: HelloParams)
    ensures p.protocolVersion != PROTOCOL_VERSION ==>
              Serve(pluginId, capabilities, quote, Envelope("", METHOD_HELLO, HelloMap(p))) ==
                (Some(Envelope("", METHOD_ERROR,
                               map["code" := Str("protocol_mismatch"),
                                   "detail" := Str("plugin speaks " + quote(PROTOCOL_VERSION) + ", core speaks " + quote(p.protocolVersion))])),
                 PluginFails(ProtocolMismatch))
    ensures p.protocolVersion == PROTOCOL_VERSION && p.pluginId != pluginId ==>
              Serve(pluginId, capabilities, quote, Envelope("", METHOD_HELLO, HelloMap(p))) ==
                (Some(Envelope("", METHOD_ERROR,
                               map["code" := Str("plugin_mismatch"),
                                   "detail" := Str("core asked for " + quote(p.pluginId) + ", this box is " + quote(pluginId))])),
                 PluginFails(HandshakeFailed))
  {
    HelloRoundTrip(p);
  }

  /** The frozen allowlist: no matter what a plugin answers, the capabilities core accepts are distinct, non-empty
      and exactly the trimmed ones that were declared, in the order first declared. */
  lemma AllowlistIsFrozen(p: HelloParams, env: Envelope, parse: string -> Url) returns (at: seq<nat>)
    requires Judge(p, env, parse).CoreOk?
    ensures var accepted := Judge(p, env, parse).result;
            && accepted.pluginId == p.pluginId && accepted.kind == p.kind
            && DecodeResult(env.params).Some?
            && var declared := TrimAll(DecodeResult(env.params).value.declaredCapabilities);
               && Embeds(accepted.capabilities, declared, at) && Distinct(accepted.capabilities)
               && "" !in accepted.capabilities
               && forall x :: x in accepted.capabilities <==> x in declared
  {
    at := DedupKeepsFirsts(TrimAll(DecodeResult(env.params).value.declaredCapabilities));
    DedupSameElements(TrimAll(DecodeResult(env.params).value.declaredCapabilities));
  }

  datatype ErrorPayload = ErrorPayload(code: string, detail: string)

  function ErrorFrom(env: Envelope): ErrorPayload {
    ErrorPayload(if "code" in env.params && env.params["code"].Str? then env.params["code"].s else "",
                 if "detail" in env.params && env.params["detail"].Str? then env.params["detail"].s else "")
  }

  /** A refusal sent across the tunnel is read back with its code and detail. */
  lemma RefusalRoundTrip(codec: Codec, id: string, code: string, detail: string)
    requires codec.Valid()
    ensures var got := Receive(codec, Wire(codec, Some(Refusal(id, code, detail))));
            got.Got? && ErrorFrom(got.env) == ErrorPayload(code, detail)
  {
    WireRoundTrip(codec, Refusal(id, code, detail));
  }
}
