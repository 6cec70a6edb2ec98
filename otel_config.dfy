/** The OTLP configuration resolver of the Grafana OpenTelemetry starter:
    from the Grafana properties (cloud instance id, API key and zone, the
    on-prem endpoint and protocol, the debug flag and the global resource
    attributes), the application name, the packaged manifest and the host
    environment it derives the property map handed to the OpenTelemetry
    SDK autoconfiguration. Cloud credentials take precedence over on-prem
    settings; missing or conflicting settings produce warnings, never an
    error. */
module OpenTelemetryConfig {
  import opened Wrappers
  import opened JavaText
  import Utf8
  import Base64

  // ---------------------------------------------------------------------
  // Property keys and constants.
  // ---------------------------------------------------------------------

  const OtlpHeaders: string := "otel.exporter.otlp.headers"
  const OtlpEndpoint: string := "otel.exporter.otlp.endpoint"
  const OtlpProtocol: string := "otel.exporter.otlp.protocol"
  const ResourceAttributesKey: string := "otel.resource.attributes"
  const TracesExporter: string := "otel.traces.exporter"
  const MetricsExporter: string := "otel.metrics.exporter"
  const LogsExporter: string := "otel.logs.exporter"

  /** The resource attribute keys of the OpenTelemetry semantic conventions. */
  const ServiceName: string := "service.name"
  const ServiceVersion: string := "service.version"
  const ServiceInstanceId: string := "service.instance.id"

  const HttpProtobuf: string := "http/protobuf"
  const Grpc: string := "grpc"

  /** How many characters of the auth header are shown in the log. */
  const MaskLength: nat := 24

  /** The header value's fixed part: the OTLP header "Authorization" whose
      value is an HTTP Basic credential (section 2 of RFC 7617). */
  const BasicAuthPrefix: string := "Authorization=Basic "

  /** The conditions the resolver reports through its logger. */
  datatype Warning =
    | IgnoringOnPremProtocol    // on-prem protocol set, but cloud credentials win
    | IgnoringOnPremEndpoint    // on-prem endpoint set, but cloud credentials win
    | MissingCloudZone          // cloud credentials without a zone
    | IgnoringCloudZone         // zone set, but no cloud credentials
    | MissingOnPremEndpoint     // neither credentials nor an on-prem endpoint
    | ApiKeyWithoutInstanceId
    | InstanceIdWithoutApiKey

  /** A string whose first character is not whitespace is not blank. */
  lemma NonBlankLiteral(s: string)
    requires s != [] && !IsWhitespace(s[0])
    ensures !IsBlank(Some(s))
  {
  }

  // ---------------------------------------------------------------------
  // Protocol.
  // ---------------------------------------------------------------------

  /** The export protocol: "http/protobuf" whenever cloud credentials produced
      an auth header, otherwise the on-prem protocol, or "grpc" by default.
      The result is never blank, so the SDK always receives a protocol. */
  function GetProtocol(protocol: JString, authHeader: Option<string>): (r: string)
    ensures !IsBlank(Some(r))
    ensures authHeader.Some? ==> r == HttpProtobuf
    ensures authHeader.None? ==> (r == Grpc <==> IsBlank(protocol) || protocol == Some(Grpc))
    ensures authHeader.None? && !IsBlank(protocol) ==> r == protocol.value
  {
    NonBlankLiteral(HttpProtobuf);
    NonBlankLiteral(Grpc);
    if authHeader.Some? then HttpProtobuf
    else if !IsBlank(protocol) then protocol.value
    else Grpc
  }

  /** The warnings `getProtocol` logs: at most one, and the ignored on-prem
      protocol is reported exactly when cloud credentials override a
      non-blank one. */
  function ProtocolWarnings(protocol: JString, authHeader: Option<string>): (w: seq<Warning>)
    ensures |w| <= 1
    ensures IgnoringOnPremProtocol in w <==> authHeader.Some? && !IsBlank(protocol)
  {
    if authHeader.Some? && !IsBlank(protocol) then [IgnoringOnPremProtocol] else []
  }

  /** With an auth header the on-prem protocol has no influence. */
  lemma ProtocolPrecedence(p1: JString, p2: JString, authHeader: Option<string>)
    ensures authHeader.Some? ==> GetProtocol(p1, authHeader) == GetProtocol(p2, authHeader) == HttpProtobuf
  {
  }

  // ---------------------------------------------------------------------
  // Endpoint.
  // ---------------------------------------------------------------------

  const GatewayPrefix: string := "https://otlp-gateway-"
  const GatewaySuffix: string := ".grafana.net/otlp"

  /** The Grafana Cloud OTLP gateway of a zone. */
  function CloudEndpoint(zone: string): string {
    GatewayPrefix + zone + GatewaySuffix
  }

  /** Recovers the zone from a gateway URL; `None` for any other string. */
  function ZoneOf(url: string): (r: Option<string>) {
    if |url| >= |GatewayPrefix| + |GatewaySuffix|
       && url[..|GatewayPrefix|] == GatewayPrefix
       && url[|url| - |GatewaySuffix|..] == GatewaySuffix
    then Some(url[|GatewayPrefix|..|url| - |GatewaySuffix|])
    else None
  }

  /** The zone can be read back from its gateway URL, so distinct zones
      never share an endpoint. */
  lemma ZoneOfCloudEndpoint(zone: string)
    ensures ZoneOf(CloudEndpoint(zone)) == Some(zone)
  {
    var url := CloudEndpoint(zone);
    assert url[..|GatewayPrefix|] == GatewayPrefix;
    assert url[|url| - |GatewaySuffix|..] == GatewaySuffix;
    assert url[|GatewayPrefix|..|url| - |GatewaySuffix|] == zone;
  }

  /** The endpoint: with an auth header, the gateway of a non-blank zone;
      without one, a non-blank on-prem endpoint; otherwise nothing. */
  function GetEndpoint(endpoint: JString, zone: JString, authHeader: Option<string>): (r: Option<string>)
    ensures r.Some? ==> !IsBlank(r)
  {
    if authHeader.Some? then
      if !IsBlank(zone) then
        NonBlankLiteral(CloudEndpoint(zone.value));
        Some(CloudEndpoint(zone.value))
      else None
    else if !IsBlank(endpoint) then Some(endpoint.value)
    else None
  }

  /** The warnings `getEndpoint` logs, in the order it logs them: with cloud
      credentials only the two cloud-mode warnings can appear, without them
      only the two on-prem ones, and a setting that is ignored is always
      reported. */
  function EndpointWarnings(endpoint: JString, zone: JString, authHeader: Option<string>): (w: seq<Warning>)
    ensures |w| <= 2
    ensures authHeader.Some? ==> IgnoringCloudZone !in w && MissingOnPremEndpoint !in w
    ensures authHeader.None? ==> IgnoringOnPremEndpoint !in w && MissingCloudZone !in w
    ensures IgnoringOnPremEndpoint in w <==> authHeader.Some? && !IsBlank(endpoint)
    ensures IgnoringCloudZone in w <==> authHeader.None? && !IsBlank(zone)
  {
    if authHeader.Some? then
      (if !IsBlank(endpoint) then [IgnoringOnPremEndpoint] else [])
      + (if IsBlank(zone) then [MissingCloudZone] else [])
    else
      (if !IsBlank(zone) then [IgnoringCloudZone] else [])
      + (if IsBlank(endpoint) then [MissingOnPremEndpoint] else [])
  }

  /** With an auth header the endpoint is the zone's gateway, the on-prem
      endpoint never matters, and no zone means no endpoint. */
  lemma CloudEndpointPrecedence(e1: JString, e2: JString, zone: JString, authHeader: Option<string>)
    requires authHeader.Some?
    ensures GetEndpoint(e1, zone, authHeader) == GetEndpoint(e2, zone, authHeader)
    ensures GetEndpoint(e1, zone, authHeader).Some? <==> !IsBlank(zone)
    ensures GetEndpoint(e1, zone, authHeader).Some? ==>
      ZoneOf(GetEndpoint(e1, zone, authHeader).value) == Some(zone.value)
  {
    if !IsBlank(zone) {
      ZoneOfCloudEndpoint(zone.value);
    }
  }

  /** Without an auth header the endpoint is the on-prem endpoint when that
      is non-blank and nothing otherwise; the zone never matters. */
  lemma OnPremEndpointChoice(endpoint: JString, z1: JString, z2: JString)
    ensures GetEndpoint(endpoint, z1, None) == GetEndpoint(endpoint, z2, None)
    ensures GetEndpoint(endpoint, z1, None) == if IsBlank(endpoint) then None else endpoint
  {
  }

  /** No endpoint is chosen exactly when a setting is reported missing. */
  lemma MissingEndpointIsReported(endpoint: JString, zone: JString, authHeader: Option<string>)
    ensures GetEndpoint(endpoint, zone, authHeader).None? <==>
      (MissingCloudZone in EndpointWarnings(endpoint, zone, authHeader)
       || MissingOnPremEndpoint in EndpointWarnings(endpoint, zone, authHeader))
  {
  }

  lemma EndpointExamples()
    ensures GetEndpoint(Some(""), Some("prod-us"), Some("h")) == Some("https://otlp-gateway-prod-us.grafana.net/otlp")
    ensures GetEndpoint(Some("http://x"), Some(""), Some("h")) == None
    ensures GetEndpoint(Some("http://x"), Some("prod-us"), None) == Some("http://x")
    ensures GetEndpoint(Some(""), Some("prod-us"), None) == None
  {
    NonBlankLiteral("prod-us");
    NonBlankLiteral("http://x");
    assert CloudEndpoint("prod-us") == "https://otlp-gateway-prod-us.grafana.net/otlp" by {
      assert GatewayPrefix + "prod-us" == "https://otlp-gateway-prod-us";
    }
  }

  // ---------------------------------------------------------------------
  // Basic auth header.
  // ---------------------------------------------------------------------

  /** The user-pass of section 2 of RFC 7617: the instance id in decimal as
      the user-id, a colon, and the API key as the password. */
  function UserPass(instanceId: int32, apiKey: string): (userPass: string)
    ensures SplitAtFirst(userPass, ':') == Some((IntToDecimal(instanceId as int), apiKey))
  {
    IntToDecimalHasNoColon(instanceId as int);
    SplitAtFirstOfJoin(IntToDecimal(instanceId as int), ':', apiKey);
    IntToDecimal(instanceId as int) + ":" + apiKey
  }

  /** The OTLP header for Grafana Cloud: present exactly when the API key is
      non-blank and the instance id is not 0; then the Basic credential is
      the base64 of the UTF-8 bytes of the user-pass. */
  function GetBasicAuthHeader(instanceId: int32, apiKey: JString): (r: Option<string>)
    ensures r.Some? <==> !IsBlank(apiKey) && instanceId != 0
    ensures r.Some? ==> BasicAuthPrefix <= r.value
  {
    if !IsBlank(apiKey) && instanceId != 0 then
      Some(BasicAuthPrefix + Base64.Encode(Utf8.Encode(UserPass(instanceId, apiKey.value))))
    else None
  }

  /** The warnings `getBasicAuthHeader` logs when only half of the
      credentials is given: at most one, and only when no header results. */
  function BasicAuthWarnings(instanceId: int32, apiKey: JString): (w: seq<Warning>)
    ensures |w| <= 1
    ensures w != [] ==> GetBasicAuthHeader(instanceId, apiKey).None?
  {
    var hasKey := !IsBlank(apiKey);
    var hasId := instanceId != 0;
    if hasKey && hasId then []
    else
      (if hasKey then [ApiKeyWithoutInstanceId] else [])
      + (if hasId then [InstanceIdWithoutApiKey] else [])
  }

  /** What a receiver of the header does with it: strip the prefix, decode
      the base64, decode UTF-8, split at the first colon and read the
      user-id as a decimal number. */
  function ParseBasicAuthHeader(header: string): (r: Option<(int, string)>) {
    if |header| < |BasicAuthPrefix| || header[..|BasicAuthPrefix|] != BasicAuthPrefix then None
    else match Base64.Decode(header[|BasicAuthPrefix|..])
      case None => None
      case Some(bytes) =>
        match Utf8.Decode(bytes)
        case None => None
        case Some(userPass) =>
          match SplitAtFirst(userPass, ':')
          case None => None
          case Some(parts) =>
            match ParseDecimal(parts.0)
            case None => None
            case Some(id) => Some((id, parts.1))
  }

  /** The header carries exactly the credentials it was built from: parsing
      it gives back the instance id and the whole API key, whatever
      characters (colons included) the key holds. */
  lemma BasicAuthHeaderRoundTrip(instanceId: int32, apiKey: JString)
    requires GetBasicAuthHeader(instanceId, apiKey).Some?
    ensures ParseBasicAuthHeader(GetBasicAuthHeader(instanceId, apiKey).value) == Some((instanceId as int, apiKey.value))
  {
    var userPass := UserPass(instanceId, apiKey.value);
    var encoded := Base64.Encode(Utf8.Encode(userPass));
    var header := BasicAuthPrefix + encoded;
    assert header[|BasicAuthPrefix|..] == encoded;
    Base64.DecodeEncode(Utf8.Encode(userPass));
    Utf8.DecodeEncode(userPass);
    IntToDecimalRoundTrip(instanceId as int);
  }

  /** The converse of the round trip: a header that reads back as a
      non-zero 32-bit id and a non-blank key is exactly the header built
      from them. Each reader accepts only the canonical form, so no other
      spelling of the same credentials is accepted. */
  lemma BasicAuthHeaderCanonical(header: string, id: int, key: string)
    requires ParseBasicAuthHeader(header) == Some((id, key))
    requires -0x8000_0000 <= id < 0x8000_0000 && id != 0 && !IsBlank(Some(key))
    ensures GetBasicAuthHeader(id as int32, Some(key)) == Some(header)
  {
    var encoded := header[|BasicAuthPrefix|..];
    var bytes := Base64.Decode(encoded).value;
    var userPass := Utf8.Decode(bytes).value;
    var parts := SplitAtFirst(userPass, ':').value;
    Base64.EncodeDecode(encoded, bytes);
    Utf8.EncodeDecode(bytes, userPass);
    SplitAtFirstJoins(userPass, ':');
    ParseDecimalCanonical(parts.0, id);
    assert parts == (IntToDecimal(id), key);
    assert userPass == UserPass(id as int32, key);
    assert header == BasicAuthPrefix + encoded;
  }

  /** Distinct credentials give distinct headers. */
  lemma BasicAuthHeaderInjective(id1: int32, key1: JString, id2: int32, key2: JString)
    requires GetBasicAuthHeader(id1, key1).Some?
    requires GetBasicAuthHeader(id1, key1) == GetBasicAuthHeader(id2, key2)
    ensures id1 == id2 && key1 == key2
  {
    BasicAuthHeaderRoundTrip(id1, key1);
    BasicAuthHeaderRoundTrip(id2, key2);
  }

  /** Half of the credentials is always reported, and full credentials or
      none at all never are. */
  lemma PartialCredentialsAreReported(instanceId: int32, apiKey: JString)
    ensures BasicAuthWarnings(instanceId, apiKey) != [] <==>
      GetBasicAuthHeader(instanceId, apiKey).None? && (!IsBlank(apiKey) || instanceId != 0)
    ensures ApiKeyWithoutInstanceId in BasicAuthWarnings(instanceId, apiKey) <==> !IsBlank(apiKey) && instanceId == 0
    ensures InstanceIdWithoutApiKey in BasicAuthWarnings(instanceId, apiKey) <==> IsBlank(apiKey) && instanceId != 0
  {
  }

  /** A zero instance id or a blank key gives no header. */
  lemma NoBasicAuthExamples()
    ensures GetBasicAuthHeader(0, Some("secret")) == None
    ensures GetBasicAuthHeader(123, Some(" ")) == None
    ensures GetBasicAuthHeader(123, None) == None
  {
  }

  // ---------------------------------------------------------------------
  // Masking the auth header for the log.
  // ---------------------------------------------------------------------

  function MaskValue(key: string, value: string): string {
    if key == OtlpHeaders && |value| > MaskLength then value[..MaskLength] + "..." else value
  }

  /** A copy of the config map for logging: a header value longer than 24
      characters is cut to its first 24 followed by "..."; every other entry
      is copied unchanged. */
  function MaskAuthHeader(config: map<string, string>): (masked: map<string, string>)
    ensures masked.Keys == config.Keys
    ensures forall k :: k in config && k != OtlpHeaders ==> masked[k] == config[k]
    ensures OtlpHeaders in config && |config[OtlpHeaders]| <= MaskLength ==>
      masked[OtlpHeaders] == config[OtlpHeaders]
    ensures OtlpHeaders in config && |config[OtlpHeaders]| > MaskLength ==>
      |masked[OtlpHeaders]| == MaskLength + 3
      && masked[OtlpHeaders][..MaskLength] == config[OtlpHeaders][..MaskLength]
      && masked[OtlpHeaders][MaskLength..] == "..."
  {
    map k | k in config :: MaskValue(k, config[k])
  }

  /** Masking an already masked map changes nothing more. */
  lemma MaskIdempotent(config: map<string, string>)
    ensures MaskAuthHeader(MaskAuthHeader(config)) == MaskAuthHeader(config)
  {
    var once := MaskAuthHeader(config);
    if OtlpHeaders in config && |config[OtlpHeaders]| > MaskLength {
      var v := once[OtlpHeaders];
      assert v[..MaskLength] + "..." == v;
    }
  }

  /** What the log shows of a Basic auth header: the prefix and the first
      four base64 characters, which stand for the first three bytes of the
      user-pass. A user-pass of four or more bytes is therefore never shown
      in full, while one of exactly three bytes (a one-digit instance id and
      a one-character key) is shown unmasked. */
  lemma MaskedBasicAuthHeader(instanceId: int32, apiKey: JString)
    requires GetBasicAuthHeader(instanceId, apiKey).Some?
    ensures var bytes := Utf8.Encode(UserPass(instanceId, apiKey.value));
      var masked := MaskAuthHeader(map[OtlpHeaders := GetBasicAuthHeader(instanceId, apiKey).value]);
      && |bytes| >= 3
      && (|bytes| == 3 ==> masked[OtlpHeaders] == GetBasicAuthHeader(instanceId, apiKey).value)
      && (|bytes| > 3 ==> masked[OtlpHeaders] == BasicAuthPrefix + Base64.Encode(bytes[..3]) + "...")
  {
    var userPass := UserPass(instanceId, apiKey.value);
    var bytes := Utf8.Encode(userPass);
    var header := GetBasicAuthHeader(instanceId, apiKey).value;
    if |bytes| > 3 {
      assert bytes == bytes[..3] + bytes[3..];
      var g := Base64.Group(bytes[0], bytes[1], bytes[2]);
      assert Base64.Encode(bytes) == g + Base64.Encode(bytes[3..]);
      assert Base64.Encode(bytes[..3]) == g + Base64.Encode([]) by {
        assert bytes[..3][3..] == [];
      }
      assert header[..MaskLength] == BasicAuthPrefix + g;
    }
  }

  /** Every character of a Basic auth header is ASCII, a single UTF-16 code
      unit: its length and the cut at `MaskLength` are the same whether
      characters or UTF-16 code units are counted. */
  lemma BasicAuthHeaderIsAscii(instanceId: int32, apiKey: JString)
    requires GetBasicAuthHeader(instanceId, apiKey).Some?
    ensures var header := GetBasicAuthHeader(instanceId, apiKey).value;
      forall i :: 0 <= i < |header| ==> header[i] as int < 0x80
  {
    var encoded := Base64.Encode(Utf8.Encode(UserPass(instanceId, apiKey.value)));
    var header := BasicAuthPrefix + encoded;
    Base64.EncodeAlphabet(Utf8.Encode(UserPass(instanceId, apiKey.value)));
    forall i | 0 <= i < |header| ensures header[i] as int < 0x80 {
      if i >= |BasicAuthPrefix| {
        assert header[i] == encoded[i - |BasicAuthPrefix|];
      }
    }
  }

  lemma MaskExamples()
    ensures MaskAuthHeader(map[OtlpHeaders := "Authorization=Basic MTIzOnNlY3JldA==", OtlpProtocol := "grpc"])
      == map[OtlpHeaders := "Authorization=Basic MTIz...", OtlpProtocol := "grpc"]
    ensures MaskAuthHeader(map[OtlpHeaders := "Authorization=Basic MTp4"]) == map[OtlpHeaders := "Authorization=Basic MTp4"]
  {
    var m := MaskAuthHeader(map[OtlpHeaders := "Authorization=Basic MTIzOnNlY3JldA==", OtlpProtocol := "grpc"]);
    assert "Authorization=Basic MTIzOnNlY3JldA=="[..MaskLength] == "Authorization=Basic MTIz";
    assert |OtlpProtocol| != |OtlpHeaders|;
    assert m.Keys == {OtlpHeaders, OtlpProtocol};
    assert m[OtlpProtocol] == "grpc";
    assert m[OtlpHeaders] == "Authorization=Basic MTIz...";
  }

  // ---------------------------------------------------------------------
  // Resource attributes.
  // ---------------------------------------------------------------------

  /** A mutable `Map<String, String>`: the global attributes map the
      properties hold, which the resolver updates in place. */
  class StringMap {
    var entries: map<string, string>

    method Put(key: string, value: string)
      modifies this
      ensures entries == old(entries)[key := value]
    {
      entries := entries[key := value];
    }
  }

  /** The first non-blank override, in argument order; what it chooses is a
      non-blank override. */
  function FirstNonBlank(overrides: seq<JString>): (r: Option<string>)
    ensures r.Some? ==> !IsBlank(r) && r in overrides
    decreases |overrides|
  {
    if overrides == [] then None
    else if !IsBlank(overrides[0]) then Some(overrides[0].value)
    else FirstNonBlank(overrides[1..])
  }

  /** The override at `i` is chosen when it is non-blank and every earlier
      one is blank. */
  lemma {:induction false} FirstNonBlankAt(overrides: seq<JString>, i: nat)
    requires i < |overrides| && !IsBlank(overrides[i])
    requires forall j :: 0 <= j < i ==> IsBlank(overrides[j])
    ensures FirstNonBlank(overrides) == Some(overrides[i].value)
    decreases i
  {
    if i > 0 {
      FirstNonBlankAt(overrides[1..], i - 1);
    }
  }

  /** Nothing is chosen exactly when every override is blank. */
  lemma {:induction false} FirstNonBlankNone(overrides: seq<JString>)
    ensures FirstNonBlank(overrides).None? <==> forall j :: 0 <= j < |overrides| ==> IsBlank(overrides[j])
    decreases |overrides|
  {
    if overrides != [] {
      FirstNonBlankNone(overrides[1..]);
      if IsBlank(overrides[0]) {
        assert forall j :: 1 <= j < |overrides| ==> overrides[j] == overrides[1..][j - 1];
      }
    }
  }

  /** The attribute map after `updateResourceAttribute`: unchanged when the
      key is present; otherwise the key is set to the first non-blank
      override, if there is one. An existing entry is never overwritten and
      no key other than `key` is added. */
  function WithAttribute(attrs: map<string, string>, key: string, overrides: seq<JString>): (r: map<string, string>)
    ensures forall k :: k in attrs ==> k in r && r[k] == attrs[k]
    ensures r.Keys <= attrs.Keys + {key}
  {
    if key in attrs then attrs
    else match FirstNonBlank(overrides)
      case None => attrs
      case Some(v) => attrs[key := v]
  }

  /** `key` ends up present exactly when it was present or some override is
      non-blank; a value it receives is non-blank and one of the overrides. */
  lemma WithAttributeSpec(attrs: map<string, string>, key: string, overrides: seq<JString>)
    ensures var r := WithAttribute(attrs, key, overrides);
      && (key in r <==> key in attrs || exists j :: 0 <= j < |overrides| && !IsBlank(overrides[j]))
      && (key in r && key !in attrs ==> !IsBlank(Some(r[key])) && Some(r[key]) in overrides)
  {
    FirstNonBlankNone(overrides);
  }

  /** A missing key receives the first non-blank override in argument
      order, and nothing else changes. */
  lemma WithAttributeFirst(attrs: map<string, string>, key: string, overrides: seq<JString>, i: nat)
    requires key !in attrs && i < |overrides| && !IsBlank(overrides[i])
    requires forall j :: 0 <= j < i ==> IsBlank(overrides[j])
    ensures WithAttribute(attrs, key, overrides) == attrs[key := overrides[i].value]
  {
    FirstNonBlankAt(overrides, i);
  }

  /** A second update with any overrides changes nothing once the key has a
      value. */
  lemma WithAttributeIdempotent(attrs: map<string, string>, key: string, overrides: seq<JString>, again: seq<JString>)
    requires key in WithAttribute(attrs, key, overrides)
    ensures WithAttribute(WithAttribute(attrs, key, overrides), key, again) == WithAttribute(attrs, key, overrides)
  {
  }

  /** `updateResourceAttribute`: fills `key` in place from the first
      non-blank override, unless the map already has it. */
  method UpdateResourceAttribute(resourceAttributes: StringMap, key: string, overrides: seq<JString>)
    modifies resourceAttributes
    ensures resourceAttributes.entries == WithAttribute(old(resourceAttributes.entries), key, overrides)
  {
    if key !in resourceAttributes.entries {
      var i := 0;
      while i < |overrides|
        invariant 0 <= i <= |overrides|
        invariant forall j :: 0 <= j < i ==> IsBlank(overrides[j])
        invariant resourceAttributes.entries == old(resourceAttributes.entries)
      {
        var value := overrides[i];
        if !IsBlank(value) {
          FirstNonBlankAt(overrides, i);
          resourceAttributes.Put(key, value.value);
          return;
        }
        i := i + 1;
      }
      FirstNonBlankNone(overrides);
    }
  }

  /** The two manifest attributes; both absent when the manifest cannot be
      read. */
  datatype Manifest = Manifest(implementationTitle: JString, implementationVersion: JString)

  /** The environment variables HOSTNAME and HOST. */
  datatype HostEnvironment = HostEnvironment(hostname: JString, host: JString)

  /** The resource attributes after the three updates of
      `getResourceAttributes`: the caller's attributes are kept as they are
      and no key other than the three service keys is added. */
  function ResolveResourceAttributes(global: map<string, string>, applicationName: JString,
                                     manifest: Manifest, env: HostEnvironment): (r: map<string, string>)
    ensures forall k :: k in global ==> k in r && r[k] == global[k]
    ensures r.Keys <= global.Keys + {ServiceName, ServiceVersion, ServiceInstanceId}
  {
    var named := WithAttribute(global, ServiceName, [applicationName, manifest.implementationTitle]);
    var versioned := WithAttribute(named, ServiceVersion, [manifest.implementationVersion]);
    WithAttribute(versioned, ServiceInstanceId, [env.hostname, env.host])
  }

  /** The caller's attributes are kept as they are, no other key is added,
      and each of the three service keys is filled from its sources in
      priority order only when the caller did not give it. */
  lemma ResolveResourceAttributesSpec(global: map<string, string>, applicationName: JString,
                                      manifest: Manifest, env: HostEnvironment)
    ensures var r := ResolveResourceAttributes(global, applicationName, manifest, env);
      && (ServiceName !in global ==>
            (ServiceName in r <==> FirstNonBlank([applicationName, manifest.implementationTitle]).Some?)
            && (ServiceName in r ==> r[ServiceName] == FirstNonBlank([applicationName, manifest.implementationTitle]).value))
      && (ServiceVersion !in global ==>
            (ServiceVersion in r <==> !IsBlank(manifest.implementationVersion))
            && (ServiceVersion in r ==> r[ServiceVersion] == manifest.implementationVersion.value))
      && (ServiceInstanceId !in global ==>
            (ServiceInstanceId in r <==> FirstNonBlank([env.hostname, env.host]).Some?)
            && (ServiceInstanceId in r ==> r[ServiceInstanceId] == FirstNonBlank([env.hostname, env.host]).value))
  {
    var named := WithAttribute(global, ServiceName, [applicationName, manifest.implementationTitle]);
    var versioned := WithAttribute(named, ServiceVersion, [manifest.implementationVersion]);
    WithAttributeSpec(global, ServiceName, [applicationName, manifest.implementationTitle]);
    WithAttributeSpec(named, ServiceVersion, [manifest.implementationVersion]);
    WithAttributeSpec(versioned, ServiceInstanceId, [env.hostname, env.host]);
  }

  /** The application name wins over the manifest title, which is used only
      when the name is blank. */
  lemma ServiceNamePriority(applicationName: JString, title: JString)
    ensures !IsBlank(applicationName) ==> FirstNonBlank([applicationName, title]) == Some(applicationName.value)
    ensures IsBlank(applicationName) ==> FirstNonBlank([applicationName, title]) == (if IsBlank(title) then None else title)
  {
    var o := [applicationName, title];
    assert o[1..] == [title];
    assert o[1..][1..] == [];
    assert FirstNonBlank([title]) == if IsBlank(title) then None else title by {
      assert [title][1..] == [];
    }
  }

  /** Resolving again, as a second start-up against the same shared map
      does, changes nothing. */
  lemma ResolveResourceAttributesIdempotent(global: map<string, string>, applicationName: JString,
                                            manifest: Manifest, env: HostEnvironment)
    ensures var r := ResolveResourceAttributes(global, applicationName, manifest, env);
      ResolveResourceAttributes(r, applicationName, manifest, env) == r
  {
    var r := ResolveResourceAttributes(global, applicationName, manifest, env);
    var named := WithAttribute(global, ServiceName, [applicationName, manifest.implementationTitle]);
    var versioned := WithAttribute(named, ServiceVersion, [manifest.implementationVersion]);
    ResolveResourceAttributesSpec(global, applicationName, manifest, env);
    WithAttributeSpec(named, ServiceVersion, [manifest.implementationVersion]);
    WithAttributeSpec(versioned, ServiceInstanceId, [env.hostname, env.host]);
    var named2 := WithAttribute(r, ServiceName, [applicationName, manifest.implementationTitle]);
    assert named2 == r by {
      if ServiceName !in r {
        assert ServiceName !in global;
        FirstNonBlankNone([applicationName, manifest.implementationTitle]);
      }
    }
    var versioned2 := WithAttribute(named2, ServiceVersion, [manifest.implementationVersion]);
    assert versioned2 == r by {
      if ServiceVersion !in r {
        assert ServiceVersion !in named;
        FirstNonBlankNone([manifest.implementationVersion]);
      }
    }
    assert WithAttribute(versioned2, ServiceInstanceId, [env.hostname, env.host]) == r by {
      if ServiceInstanceId !in r {
        FirstNonBlankNone([env.hostname, env.host]);
      }
    }
  }

  // ---------------------------------------------------------------------
  // Serialising the attributes.
  // ---------------------------------------------------------------------

  /** `order` lists every key of `m` once: an iteration order of the map. */
  predicate IsKeyOrder(order: seq<string>, m: map<string, string>) {
    && (forall i, j :: 0 <= i < j < |order| ==> order[i] != order[j])
    && (forall i :: 0 <= i < |order| ==> order[i] in m)
    && (forall k :: k in m ==> k in order)
  }

  /** One "key=value" item per key, in the given order. */
  function Items(m: map<string, string>, order: seq<string>): (items: seq<string>)
    requires forall i :: 0 <= i < |order| ==> order[i] in m
    ensures |items| == |order|
    ensures forall i :: 0 <= i < |order| ==> items[i] == order[i] + "=" + m[order[i]]
    decreases |order|
  {
    if order == [] then [] else [order[0] + "=" + m[order[0]]] + Items(m, order[1..])
  }

  /** `Collectors.joining` with a one-character separator: the result starts
      with the first item. */
  function Join(items: seq<string>, sep: char): (r: string)
    ensures items != [] ==> items[0] <= r
    decreases |items|
  {
    if items == [] then ""
    else if |items| == 1 then items[0]
    else items[0] + [sep] + Join(items[1..], sep)
  }

  /** The attribute string of `getResourceAttributes`: the comma-join of the
      items in the map's iteration order; empty exactly for the empty map. */
  function Serialise(m: map<string, string>, order: seq<string>): (r: string)
    requires IsKeyOrder(order, m)
    ensures r == "" <==> m == map[]
  {
    assert order == [] ==> m.Keys == {};
    assert order != [] ==> order[0] in m;
    Join(Items(m, order), ',')
  }

  /** Splits at every occurrence of `sep`, keeping empty parts. */
  function Split(s: string, sep: char): (parts: seq<string>)
    ensures |parts| >= 1
    decreases |s|
  {
    if s == [] then [""]
    else
      var rest := Split(s[1..], sep);
      if s[0] == sep then [""] + rest
      else [[s[0]] + rest[0]] + rest[1..]
  }

  /** A reader of the attribute string, the partner of `Serialise`: items
      separated by ',', each split at its first '='. */
  function ParseAttributes(s: string): Option<map<string, string>> {
    if s == "" then Some(map[]) else ParseItems(Split(s, ','))
  }

  function ParseItems(items: seq<string>): Option<map<string, string>>
    decreases |items|
  {
    if items == [] then Some(map[])
    else match SplitAtFirst(items[0], '=')
      case None => None
      case Some(kv) =>
        match ParseItems(items[1..])
        case None => None
        case Some(rest) => Some(rest[kv.0 := kv.1])
  }

  lemma {:induction false} SplitOfPart(a: string, sep: char, s: string)
    requires sep !in a
    ensures Split(a + s, sep) == [a + Split(s, sep)[0]] + Split(s, sep)[1..]
    decreases |a|
  {
    if a != [] {
      assert (a + s)[1..] == a[1..] + s;
      SplitOfPart(a[1..], sep, s);
      assert [a[0]] + (a[1..] + Split(s, sep)[0]) == a + Split(s, sep)[0];
    } else {
      assert a + s == s;
      var parts := Split(s, sep);
      assert parts == [parts[0]] + parts[1..];
      assert a + parts[0] == parts[0];
    }
  }

  /** Splitting undoes joining when no item holds the separator. */
  lemma {:induction false} SplitJoin(items: seq<string>, sep: char)
    requires items != []
    requires forall i :: 0 <= i < |items| ==> sep !in items[i]
    ensures Split(Join(items, sep), sep) == items
    decreases |items|
  {
    if |items| == 1 {
      SplitOfPart(items[0], sep, "");
      assert items[0] + "" == items[0];
    } else {
      var tail := Join(items[1..], sep);
      SplitJoin(items[1..], sep);
      assert Join(items, sep) == items[0] + ([sep] + tail);
      SplitOfPart(items[0], sep, [sep] + tail);
      assert ([sep] + tail)[1..] == tail;
      assert items[0] + "" == items[0];
      assert [items[0]] + items[1..] == items;
    }
  }

  /** The attribute items read back as the map restricted to their keys. */
  lemma {:induction false} ParseItemsOfItems(m: map<string, string>, order: seq<string>)
    requires forall i :: 0 <= i < |order| ==> order[i] in m && '=' !in order[i]
    ensures ParseItems(Items(m, order)) == Some(map k | k in order :: m[k])
    decreases |order|
  {
    if order != [] {
      var items := Items(m, order);
      SplitAtFirstOfJoin(order[0], '=', m[order[0]]);
      assert items[0] == order[0] + "=" + m[order[0]];
      assert items[1..] == Items(m, order[1..]);
      ParseItemsOfItems(m, order[1..]);
      var rest := map k | k in order[1..] :: m[k];
      assert rest[order[0] := m[order[0]]] == map k | k in order :: m[k];
    }
  }

  /** A map whose keys hold neither ',' nor '=' and whose values hold no ','
      is read back exactly from its attribute string, whatever the
      iteration order. */
  lemma SerialiseRoundTrip(m: map<string, string>, order: seq<string>)
    requires IsKeyOrder(order, m)
    requires forall k :: k in m ==> ',' !in k && '=' !in k && ',' !in m[k]
    ensures ParseAttributes(Serialise(m, order)) == Some(m)
  {
    var items := Items(m, order);
    assert ParseItems(items) == Some(m) by {
      ParseItemsOfItems(m, order);
      KeyOrderCoversMap(m, order);
    }
    if order == [] {
      assert m == map[];
    } else {
      assert Split(Join(items, ','), ',') == items by {
        ItemsHaveNoComma(m, order);
        SplitJoin(items, ',');
      }
    }
  }

  lemma KeyOrderCoversMap(m: map<string, string>, order: seq<string>)
    requires IsKeyOrder(order, m)
    ensures (map k | k in order :: m[k]) == m
  {
  }

  lemma ItemsHaveNoComma(m: map<string, string>, order: seq<string>)
    requires forall i :: 0 <= i < |order| ==> order[i] in m
    requires forall k :: k in m ==> ',' !in k && ',' !in m[k]
    ensures forall i :: 0 <= i < |order| ==> ',' !in Items(m, order)[i]
  {
    var items := Items(m, order);
    forall i | 0 <= i < |items| ensures ',' !in items[i] {
      assert items[i] == order[i] + "=" + m[order[i]];
    }
  }

  /** Lists the keys of `m` in some order: the unspecified iteration order of
      the `HashMap` entry set. */
  method KeyOrder(m: map<string, string>) returns (order: seq<string>)
    ensures IsKeyOrder(order, m)
  {
    var remaining := m.Keys;
    order := [];
    while remaining != {}
      invariant remaining <= m.Keys
      invariant forall i, j :: 0 <= i < j < |order| ==> order[i] != order[j]
      invariant forall i :: 0 <= i < |order| ==> order[i] in m && order[i] !in remaining
      invariant forall k :: k in m ==> k in order || k in remaining
      decreases remaining
    {
      var k :| k in remaining;
      order := order + [k];
      remaining := remaining - {k};
    }
  }

  /** The Grafana properties the resolver reads. */
  datatype CloudProperties = CloudProperties(instanceId: int32, apiKey: JString, zone: JString)
  datatype OnPremProperties = OnPremProperties(endpoint: JString, protocol: JString)
  datatype GrafanaProperties = GrafanaProperties(
    debugLogging: bool,
    cloud: CloudProperties,
    onPrem: OnPremProperties,
    globalAttributes: StringMap)

  /** `getResourceAttributes`: fills the service attributes into the shared
      global map in place, then serialises the whole map. */
  method GetResourceAttributes(properties: GrafanaProperties, applicationName: JString,
                               manifest: Manifest, env: HostEnvironment)
    returns (attributes: string, ghost order: seq<string>)
    modifies properties.globalAttributes
    ensures properties.globalAttributes.entries ==
      ResolveResourceAttributes(old(properties.globalAttributes.entries), applicationName, manifest, env)
    ensures IsKeyOrder(order, properties.globalAttributes.entries)
    ensures attributes == Serialise(properties.globalAttributes.entries, order)
  {
    var resourceAttributes := properties.globalAttributes;
    UpdateResourceAttribute(resourceAttributes, ServiceName, [applicationName, manifest.implementationTitle]);
    UpdateResourceAttribute(resourceAttributes, ServiceVersion, [manifest.implementationVersion]);
    UpdateResourceAttribute(resourceAttributes, ServiceInstanceId, [env.hostname, env.host]);
    var keys := KeyOrder(resourceAttributes.entries);
    attributes := Serialise(resourceAttributes.entries, keys);
    order := keys;
  }

  // ---------------------------------------------------------------------
  // Assembly.
  // ---------------------------------------------------------------------

  /** The OpenTelemetry exporter list: "otlp" always, preceded by "logging"
      exactly with debug logging. */
  function Exporters(debugLogging: bool): (r: string)
  {
    if debugLogging then "logging,otlp" else "otlp"
  }

  /** The config property map `getConfigProperties` returns, given the
      attribute string it serialised. */
  function ConfigProperties(debugLogging: bool, cloud: CloudProperties, onPrem: OnPremProperties,
                            resourceAttributes: string): map<string, string> {
    var exporters := Exporters(debugLogging);
    var authHeader := GetBasicAuthHeader(cloud.instanceId, cloud.apiKey);
    var base := map[
      ResourceAttributesKey := resourceAttributes,
      OtlpProtocol := GetProtocol(onPrem.protocol, authHeader),
      TracesExporter := exporters,
      MetricsExporter := exporters,
      LogsExporter := exporters];
    var withHeaders := if authHeader.Some? then base[OtlpHeaders := authHeader.value] else base;
    match GetEndpoint(onPrem.endpoint, cloud.zone, authHeader)
    case Some(e) => withHeaders[OtlpEndpoint := e]
    case None => withHeaders
  }

  /** The five fixed keys are always there; the headers key exactly when
      there is an auth header and the endpoint key exactly when an endpoint
      was chosen, with the helpers' values; the three exporter keys share
      one value. */
  lemma ConfigPropertiesSpec(debugLogging: bool, cloud: CloudProperties, onPrem: OnPremProperties,
                             resourceAttributes: string)
    ensures var config := ConfigProperties(debugLogging, cloud, onPrem, resourceAttributes);
      var authHeader := GetBasicAuthHeader(cloud.instanceId, cloud.apiKey);
      var endpoint := GetEndpoint(onPrem.endpoint, cloud.zone, authHeader);
      && config.Keys ==
           {ResourceAttributesKey, OtlpProtocol, TracesExporter, MetricsExporter, LogsExporter}
           + (if authHeader.Some? then {OtlpHeaders} else {})
           + (if endpoint.Some? then {OtlpEndpoint} else {})
      && config[ResourceAttributesKey] == resourceAttributes
      && config[OtlpProtocol] == GetProtocol(onPrem.protocol, authHeader)
      && config[TracesExporter] == config[MetricsExporter] == config[LogsExporter]
      && (config[TracesExporter] == "logging,otlp" <==> debugLogging)
      && (config[TracesExporter] == "otlp" <==> !debugLogging)
      && (authHeader.Some? ==> config[OtlpHeaders] == authHeader.value)
      && (endpoint.Some? ==> config[OtlpEndpoint] == endpoint.value)
  {
  }

  /** Cloud credentials take precedence: with them, the on-prem settings do
      not affect the configuration at all, the protocol is "http/protobuf"
      and any endpoint is the zone's gateway. */
  lemma CloudCredentialsTakePrecedence(debugLogging: bool, cloud: CloudProperties,
                                       p1: OnPremProperties, p2: OnPremProperties, resourceAttributes: string)
    requires GetBasicAuthHeader(cloud.instanceId, cloud.apiKey).Some?
    ensures ConfigProperties(debugLogging, cloud, p1, resourceAttributes) ==
            ConfigProperties(debugLogging, cloud, p2, resourceAttributes)
    ensures var config := ConfigProperties(debugLogging, cloud, p1, resourceAttributes);
      && config[OtlpProtocol] == HttpProtobuf
      && (OtlpEndpoint in config <==> !IsBlank(cloud.zone))
      && (OtlpEndpoint in config ==> config[OtlpEndpoint] == CloudEndpoint(cloud.zone.value))
  {
    var authHeader := GetBasicAuthHeader(cloud.instanceId, cloud.apiKey);
    CloudEndpointPrecedence(p1.endpoint, p2.endpoint, cloud.zone, authHeader);
    ConfigPropertiesSpec(debugLogging, cloud, p1, resourceAttributes);
  }

  /** Without complete cloud credentials the cloud settings do not affect the
      configuration: the zone and a half-given credential are ignored. */
  lemma OnPremWithoutCredentials(debugLogging: bool, c1: CloudProperties, c2: CloudProperties,
                                 onPrem: OnPremProperties, resourceAttributes: string)
    requires GetBasicAuthHeader(c1.instanceId, c1.apiKey).None?
    requires GetBasicAuthHeader(c2.instanceId, c2.apiKey).None?
    ensures ConfigProperties(debugLogging, c1, onPrem, resourceAttributes) ==
            ConfigProperties(debugLogging, c2, onPrem, resourceAttributes)
    ensures OtlpHeaders !in ConfigProperties(debugLogging, c1, onPrem, resourceAttributes)
  {
    OnPremEndpointChoice(onPrem.endpoint, c1.zone, c2.zone);
    ConfigPropertiesSpec(debugLogging, c1, onPrem, resourceAttributes);
  }

  /** `getConfigProperties`: resolves the resource attributes (updating the
      shared global map), then builds the fixed entries and adds the headers
      and the endpoint when they are present. */
  method GetConfigProperties(properties: GrafanaProperties, applicationName: JString,
                             manifest: Manifest, env: HostEnvironment)
    returns (configProperties: map<string, string>, ghost order: seq<string>)
    modifies properties.globalAttributes
    ensures properties.globalAttributes.entries ==
      ResolveResourceAttributes(old(properties.globalAttributes.entries), applicationName, manifest, env)
    ensures IsKeyOrder(order, properties.globalAttributes.entries)
    ensures configProperties == ConfigProperties(properties.debugLogging, properties.cloud, properties.onPrem,
                                                 Serialise(properties.globalAttributes.entries, order))
  {
    var exporters := Exporters(properties.debugLogging);
    var cloud := properties.cloud;
    var onPrem := properties.onPrem;
    var authHeader := GetBasicAuthHeader(cloud.instanceId, cloud.apiKey);
    var attributes;
    attributes, order := GetResourceAttributes(properties, applicationName, manifest, env);
    configProperties := map[
      ResourceAttributesKey := attributes,
      OtlpProtocol := GetProtocol(onPrem.protocol, authHeader),
      TracesExporter := exporters,
      MetricsExporter := exporters,
      LogsExporter := exporters];
    if authHeader.Some? {
      configProperties := configProperties[OtlpHeaders := authHeader.value];
    }
    var endpoint := GetEndpoint(onPrem.endpoint, cloud.zone, authHeader);
    if endpoint.Some? {
      configProperties := configProperties[OtlpEndpoint := endpoint.value];
    }
  }
}
