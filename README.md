# OTLP configuration resolver of the Grafana OpenTelemetry starter

This project is a Dafny model of `OpenTelemetryConfig`, the Spring configuration class of the Grafana OpenTelemetry starter, together with proofs about the model. The class takes the Grafana properties, the application name, the packaged manifest and the host environment. From them it derives the property map that the OpenTelemetry SDK autoconfiguration receives:

- `otel.exporter.otlp.protocol` is "http/protobuf" when Grafana Cloud credentials are present. Otherwise it is the on-prem protocol, or "grpc" when that is blank.
- `otel.exporter.otlp.endpoint` is the cloud gateway `https://otlp-gateway-<zone>.grafana.net/otlp` when credentials are present. Otherwise it is the on-prem endpoint. It is omitted when the needed setting is blank.
- `otel.exporter.otlp.headers` is `Authorization=Basic <base64(id:key)>`. It is present only when the API key is non-blank and the instance id is not 0.
- `otel.resource.attributes` serialises the shared global attribute map. Before that, `service.name`, `service.version` and `service.instance.id` are filled in, but a value the caller gave is never overwritten.
- The three exporter keys are "logging,otlp" with debug logging and "otlp" without it.
- A masked copy of the map is made for the log. It cuts the header value to 24 characters plus "...".

Files:

- `wrappers.dfy`: `Option`, used for Java's `Optional` and for `null`.
- `java_text.dfy` (module `JavaText`): the library behaviour the resolver depends on. This covers log4j `Strings.isBlank` (null, empty, or only `Character.isWhitespace` characters), `Integer.toString` with a parser that accepts only its canonical output, and splitting at the first occurrence of a separator.
- `utf8.dfy` (module `Utf8`): `String.getBytes()` with the UTF-8 charset. Its partner is a decoder that rejects ill-formed, overlong and surrogate sequences.
- `base64.dfy` (module `Base64`): the basic encoder of `java.util.Base64`, that is, base64 with padding as section 4 of RFC 4648 defines it. Its partner is a decoder that rejects non-zero pad bits (section 3.5).
- `otel_config.dfy` (module `OpenTelemetryConfig`): the resolver itself.
  - The pure decisions (`getProtocol`, `getEndpoint`, `getBasicAuthHeader`, `maskAuthHeader`, the serialisation) are functions.
  - The three operations that update state in place are methods:
    - `updateResourceAttribute` updates the caller's map, which is modelled as the class `StringMap`.
    - `getResourceAttributes` changes the global map that the properties share.
    - `getConfigProperties` builds the map and then adds the optional entries.
  - Each method is proved against a specification function. Lemmas prove what the source promises about those functions.

What the proofs establish, beyond each operation's own contract:

- **Precedence.** With cloud credentials, the on-prem settings have no effect at all on the configuration. Without them, the zone and a half-given credential have no effect.
- **Warnings.** An endpoint is omitted exactly when a setting is reported missing.
- **The Basic credential.** The header carries exactly the instance id and the API key. Decoding it (base64, then UTF-8, then splitting at the first colon, then parsing the decimal id) gives both back, even when the key contains colons. Conversely, the only header that decodes to a given id and key is the one the resolver builds, because each decoder accepts only canonical input.
- **Resource attributes.** The caller's attributes are never overwritten, and no key other than the three service keys is added. Resolving a second time changes nothing. The attribute string can be read back into the map whatever the iteration order, as long as the keys contain neither ',' nor '=' and the values contain no ','.
- **Masking.** Masking is idempotent. The log shows only the base64 of the first three bytes of the user-pass. A user-pass of exactly three bytes, such as instance 1 with key "x", is therefore logged in full (`MaskedBasicAuthHeader`, `MaskExamples`).

## Model

| member | source | states |
|---|---|---|
| `JavaText.IsBlank` | src/main/java/com/grafana/opentelemetry/OpenTelemetryConfig.java:81 | Definition only: log4j `Strings.isBlank`, true for null, "" and strings made only of `Character.isWhitespace` characters. `BlankExamples` states cases of it |
| `JavaText.BlankExamples` | src/main/java/com/grafana/opentelemetry/OpenTelemetryConfig.java:81 | "", " \t\n" and null are blank, while "grpc" and " x " are not |
| `JavaText.IntToDecimal` | src/main/java/com/grafana/opentelemetry/OpenTelemetryConfig.java:133 | The decimal form of `String.format("%s", instanceId)` is non-empty, starts with '-' exactly for a negative id, and is otherwise digits only |
| `JavaText.IntToDecimalRoundTrip` | src/main/java/com/grafana/opentelemetry/OpenTelemetryConfig.java:133 | Parsing the decimal form `String.format("%s", instanceId)` gives back the instance id, for negative ids too |
| `JavaText.ParseDecimalCanonical` | src/main/java/com/grafana/opentelemetry/OpenTelemetryConfig.java:133 | The other direction: the parser accepts only the decimal form of the id it returns, so there is no '+', no "-0" and no leading zero |
| `JavaText.SplitAtFirstJoins` | src/main/java/com/grafana/opentelemetry/OpenTelemetryConfig.java:133 | A string split at its first colon is the first part, the colon and the second part, in that order |
| `JavaText.IntToDecimalHasNoColon` | src/main/java/com/grafana/opentelemetry/OpenTelemetryConfig.java:133 | The decimal form of the instance id never contains the ':' of the user-pass |
| `JavaText.SplitAtFirstOfJoin` | src/main/java/com/grafana/opentelemetry/OpenTelemetryConfig.java:133 | `id + ":" + key` splits at its first colon back into `id` and `key` when `id` has no colon, whatever `key` holds |
| `Utf8.DecodeEncode` | src/main/java/com/grafana/opentelemetry/OpenTelemetryConfig.java:135 | The UTF-8 bytes of `userPass.getBytes()` decode back to the user-pass |
| `Utf8.EncodeDecode` | src/main/java/com/grafana/opentelemetry/OpenTelemetryConfig.java:135 | The other direction: bytes that decode to a string are exactly that string's UTF-8 encoding, because the decoder rejects overlong forms |
| `Utf8.EncodeAscii` | src/main/java/com/grafana/opentelemetry/OpenTelemetryConfig.java:135 | An ASCII user-pass takes one byte per character, each byte equal to the character's code |
| `Utf8.Encode` | src/main/java/com/grafana/opentelemetry/OpenTelemetryConfig.java:135 | `userPass.getBytes()` as UTF-8: every character takes between one and four bytes |
| `Base64.DecodeEncode` | src/main/java/com/grafana/opentelemetry/OpenTelemetryConfig.java:135 | Decoding `Base64.getEncoder().encodeToString(bytes)` gives back the bytes |
| `Base64.EncodeDecode` | src/main/java/com/grafana/opentelemetry/OpenTelemetryConfig.java:135 | The other direction: a string that decodes to some bytes is exactly their encoding, because the decoder rejects padding with non-zero bits |
| `Base64.Encode` | src/main/java/com/grafana/opentelemetry/OpenTelemetryConfig.java:135 | `Base64.getEncoder().encodeToString`: four characters for each started group of three bytes |
| `Base64.EncodeAlphabet` | src/main/java/com/grafana/opentelemetry/OpenTelemetryConfig.java:135 | The encoding uses only the alphabet of RFC 4648, plus '=' in its last two positions |
| `Base64.CredentialExample` | src/main/java/com/grafana/opentelemetry/OpenTelemetryConfig.java:135 | The bytes of "123:secret" encode to "MTIzOnNlY3JldA==" |
| `OpenTelemetryConfig.GetProtocol` | src/main/java/com/grafana/opentelemetry/OpenTelemetryConfig.java:80-90 | The protocol is never blank. It is "http/protobuf" whenever an auth header is present. Without one, a non-blank on-prem protocol is used verbatim, and the result is "grpc" exactly when the on-prem protocol is blank or is "grpc" |
| `OpenTelemetryConfig.ProtocolWarnings` | src/main/java/com/grafana/opentelemetry/OpenTelemetryConfig.java:82-85 | At most one warning. "ignoring grafana.otlp.onprem.protocol" is logged exactly when an auth header is present and the on-prem protocol is non-blank |
| `OpenTelemetryConfig.ProtocolPrecedence` | src/main/java/com/grafana/opentelemetry/OpenTelemetryConfig.java:82-87 | With an auth header, any two on-prem protocols give the same result, "http/protobuf" |
| `OpenTelemetryConfig.CloudEndpoint` | src/main/java/com/grafana/opentelemetry/OpenTelemetryConfig.java:112 | Definition only: the gateway URL `https://otlp-gateway-<zone>.grafana.net/otlp`. `ZoneOfCloudEndpoint` states its partner |
| `OpenTelemetryConfig.ZoneOfCloudEndpoint` | src/main/java/com/grafana/opentelemetry/OpenTelemetryConfig.java:112 | The zone is read back from its gateway URL by a separate reader, so distinct zones never share an endpoint |
| `OpenTelemetryConfig.GetEndpoint` | src/main/java/com/grafana/opentelemetry/OpenTelemetryConfig.java:104-127 | A chosen endpoint is never blank |
| `OpenTelemetryConfig.CloudEndpointPrecedence` | src/main/java/com/grafana/opentelemetry/OpenTelemetryConfig.java:107-115 | With an auth header, the on-prem endpoint never changes the result. An endpoint is chosen exactly when the zone is non-blank, and the zone can be read back from it |
| `OpenTelemetryConfig.OnPremEndpointChoice` | src/main/java/com/grafana/opentelemetry/OpenTelemetryConfig.java:116-126 | Without an auth header, the zone never changes the result. The result is the on-prem endpoint when that is non-blank, and none otherwise |
| `OpenTelemetryConfig.EndpointWarnings` | src/main/java/com/grafana/opentelemetry/OpenTelemetryConfig.java:104-127 | At most two warnings. With an auth header only the ignored-endpoint and missing-zone warnings can appear, without one only the ignored-zone and missing-endpoint ones. An ignored non-blank endpoint or zone is always reported |
| `OpenTelemetryConfig.MissingEndpointIsReported` | src/main/java/com/grafana/opentelemetry/OpenTelemetryConfig.java:104-127 | No endpoint is chosen exactly when "please specify zone" or "please specify endpoint" is logged |
| `OpenTelemetryConfig.EndpointExamples` | src/main/java/com/grafana/opentelemetry/OpenTelemetryConfig.java:104-127 | Zone "prod-us" with credentials gives the prod-us gateway URL. No zone gives none. On-prem "http://x" without credentials is returned verbatim, and a blank one gives none |
| `OpenTelemetryConfig.UserPass` | src/main/java/com/grafana/opentelemetry/OpenTelemetryConfig.java:133 | The user-pass `id:key` splits at its first colon back into the decimal id and the whole key, as section 2 of RFC 7617 requires of a user-id without colons |
| `OpenTelemetryConfig.GetBasicAuthHeader` | src/main/java/com/grafana/opentelemetry/OpenTelemetryConfig.java:129-146 | A header is present exactly when the API key is non-blank and the instance id is not 0. It starts with "Authorization=Basic " |
| `OpenTelemetryConfig.BasicAuthWarnings` | src/main/java/com/grafana/opentelemetry/OpenTelemetryConfig.java:138-144 | At most one warning, and only when no header is produced |
| `OpenTelemetryConfig.BasicAuthHeaderRoundTrip` | src/main/java/com/grafana/opentelemetry/OpenTelemetryConfig.java:129-136 | Parsing the header gives back exactly the instance id and the whole API key |
| `OpenTelemetryConfig.BasicAuthHeaderCanonical` | src/main/java/com/grafana/opentelemetry/OpenTelemetryConfig.java:129-136 | The other direction: a header that parses to a non-zero 32-bit id and a non-blank key is the header built from them |
| `OpenTelemetryConfig.BasicAuthHeaderInjective` | src/main/java/com/grafana/opentelemetry/OpenTelemetryConfig.java:133-135 | Two different pairs of credentials never give the same header |
| `OpenTelemetryConfig.PartialCredentialsAreReported` | src/main/java/com/grafana/opentelemetry/OpenTelemetryConfig.java:138-145 | A warning is logged exactly when one half of the credentials is present without the other. Each of the two warnings names the half that is missing |
| `OpenTelemetryConfig.MaskAuthHeader` | src/main/java/com/grafana/opentelemetry/OpenTelemetryConfig.java:92-102 | The masked copy has the same keys. Every entry other than the header is unchanged. A header of at most 24 characters is unchanged. A longer one becomes its first 24 characters followed by "..." |
| `OpenTelemetryConfig.MaskIdempotent` | src/main/java/com/grafana/opentelemetry/OpenTelemetryConfig.java:92-102 | Masking an already masked map changes nothing |
| `OpenTelemetryConfig.MaskedBasicAuthHeader` | src/main/java/com/grafana/opentelemetry/OpenTelemetryConfig.java:99-100 | A masked Basic header is the prefix followed by the base64 of the first three user-pass bytes and "...". A three-byte user-pass is logged unmasked |
| `OpenTelemetryConfig.BasicAuthHeaderIsAscii` | src/main/java/com/grafana/opentelemetry/OpenTelemetryConfig.java:134-135 | Every character of a Basic auth header is ASCII, so its length counts the same in characters and in UTF-16 code units |
| `OpenTelemetryConfig.MaskExamples` | src/main/java/com/grafana/opentelemetry/OpenTelemetryConfig.java:92-102 | A 36-character header is cut to 24 characters plus "...". The protocol entry and a 24-character header are unchanged |
| `OpenTelemetryConfig.FirstNonBlank` | src/main/java/com/grafana/opentelemetry/OpenTelemetryConfig.java:185-190 | A chosen value is a non-blank override |
| `OpenTelemetryConfig.FirstNonBlankAt` | src/main/java/com/grafana/opentelemetry/OpenTelemetryConfig.java:185-190 | The override chosen is the first non-blank one in argument order |
| `OpenTelemetryConfig.FirstNonBlankNone` | src/main/java/com/grafana/opentelemetry/OpenTelemetryConfig.java:185-190 | No override is chosen exactly when all are blank |
| `OpenTelemetryConfig.WithAttribute` | src/main/java/com/grafana/opentelemetry/OpenTelemetryConfig.java:181-192 | An existing entry is never overwritten, and no key other than the given one is added |
| `OpenTelemetryConfig.WithAttributeSpec` | src/main/java/com/grafana/opentelemetry/OpenTelemetryConfig.java:181-192 | The key ends up present exactly when it already was or some override is non-blank, and a new value is a non-blank override |
| `OpenTelemetryConfig.WithAttributeFirst` | src/main/java/com/grafana/opentelemetry/OpenTelemetryConfig.java:184-190 | A missing key receives exactly the first non-blank override in argument order, and no other entry changes |
| `OpenTelemetryConfig.WithAttributeIdempotent` | src/main/java/com/grafana/opentelemetry/OpenTelemetryConfig.java:184 | Once the key is present, a further update with any overrides changes nothing |
| `OpenTelemetryConfig.UpdateResourceAttribute` | src/main/java/com/grafana/opentelemetry/OpenTelemetryConfig.java:181-192 | The in-place loop with its early return leaves the map equal to `WithAttribute` of the old map |
| `OpenTelemetryConfig.ResolveResourceAttributes` | src/main/java/com/grafana/opentelemetry/OpenTelemetryConfig.java:170-174 | The caller's attributes are kept as they are, and no key other than service.name, service.version and service.instance.id is added |
| `OpenTelemetryConfig.ResolveResourceAttributesSpec` | src/main/java/com/grafana/opentelemetry/OpenTelemetryConfig.java:170-174 | service.name comes from the application name, then the manifest title. service.version comes from the manifest version. service.instance.id comes from HOSTNAME, then HOST. Each is filled only if missing |
| `OpenTelemetryConfig.ServiceNamePriority` | src/main/java/com/grafana/opentelemetry/OpenTelemetryConfig.java:170-171 | A non-blank application name wins over the manifest title. The title is used only when the name is blank |
| `OpenTelemetryConfig.ResolveResourceAttributesIdempotent` | src/main/java/com/grafana/opentelemetry/OpenTelemetryConfig.java:149-174 | Resolving the already resolved shared map a second time changes nothing |
| `OpenTelemetryConfig.Items` | src/main/java/com/grafana/opentelemetry/OpenTelemetryConfig.java:176-177 | There is one `key=value` item per key of the iteration order, at the same position |
| `OpenTelemetryConfig.Join` | src/main/java/com/grafana/opentelemetry/OpenTelemetryConfig.java:178 | `Collectors.joining`: the joined string starts with the first item |
| `OpenTelemetryConfig.Serialise` | src/main/java/com/grafana/opentelemetry/OpenTelemetryConfig.java:176-178 | The attribute string is empty exactly when the map is empty |
| `OpenTelemetryConfig.SplitJoin` | src/main/java/com/grafana/opentelemetry/OpenTelemetryConfig.java:178 | Splitting the comma-join gives back the items when no item contains a comma |
| `OpenTelemetryConfig.SerialiseRoundTrip` | src/main/java/com/grafana/opentelemetry/OpenTelemetryConfig.java:176-178 | The attribute string reads back as exactly the map, for every iteration order, when keys contain neither ',' nor '=' and values contain no ',' |
| `OpenTelemetryConfig.KeyOrder` | src/main/java/com/grafana/opentelemetry/OpenTelemetryConfig.java:176 | The entry-set iteration lists every key of the map exactly once |
| `OpenTelemetryConfig.GetResourceAttributes` | src/main/java/com/grafana/opentelemetry/OpenTelemetryConfig.java:148-179 | The shared global map becomes its resolution, and the result is its serialisation in some iteration order |
| `OpenTelemetryConfig.Exporters` | src/main/java/com/grafana/opentelemetry/OpenTelemetryConfig.java:62 | Definition only: "logging,otlp" with debug logging, "otlp" without. `ConfigPropertiesSpec` states what the configuration gets from it |
| `OpenTelemetryConfig.ConfigProperties` | src/main/java/com/grafana/opentelemetry/OpenTelemetryConfig.java:61-78 | Definition only: the map `getConfigProperties` builds. `ConfigPropertiesSpec` states its key set and values |
| `OpenTelemetryConfig.ConfigPropertiesSpec` | src/main/java/com/grafana/opentelemetry/OpenTelemetryConfig.java:61-78 | The key set is exactly the five fixed keys, plus the headers key when an auth header is present, plus the endpoint key when an endpoint is chosen. The values are the helpers' results. The three exporter keys share "logging,otlp" with debug logging and "otlp" without it |
| `OpenTelemetryConfig.CloudCredentialsTakePrecedence` | src/main/java/com/grafana/opentelemetry/OpenTelemetryConfig.java:66-76 | With cloud credentials, any two on-prem settings give the same map. The protocol is "http/protobuf", and an endpoint, when there is one, is the zone's gateway |
| `OpenTelemetryConfig.OnPremWithoutCredentials` | src/main/java/com/grafana/opentelemetry/OpenTelemetryConfig.java:66-76 | Without complete credentials, any two cloud settings give the same map, and the map has no headers key |
| `OpenTelemetryConfig.GetConfigProperties` | src/main/java/com/grafana/opentelemetry/OpenTelemetryConfig.java:61-78 | The global map is resolved in place. The returned map is `ConfigProperties` of the properties and of the serialised attributes |

## Left out

- Spring wiring (`@Configuration`, `@Bean`, `@Value`), the Micrometer registry bean and the choice between the SDK and the no-op OpenTelemetry: these are framework plumbing over external libraries.
- Building the SDK (`builder.build()`) and returning `null` when that fails, together with that failure's warning: this belongs to the autoconfiguration library.
- Reading `META-INF/MANIFEST.MF` and `System.getenv("HOSTNAME"/"HOST")`: these are I/O and environment access, so they are parameters (`Manifest`, `HostEnvironment`). A manifest that cannot be read is passed as two absent values.
- The logging facade: each logger call is modelled as a `Warning` tag returned by `ProtocolWarnings`, `EndpointWarnings` or `BasicAuthWarnings`. The log line of the masked map is not modelled.
- `GrafanaProperties` and its default values are not part of this model. Its string properties are taken as possibly `null` (`None`), and the values of the global attribute map as non-null.
- The order of `HashMap` iteration is unspecified. `KeyOrder` chooses an arbitrary order, and every property of the attribute string holds for all orders.
- `getBytes()` uses the platform default charset. The model takes it to be UTF-8, the default since Java 18. A lone UTF-16 surrogate in the API key, which Java would encode as '?', cannot be represented: a Dafny `char` is a Unicode scalar value.
- `IsWhitespace` follows `Character.isWhitespace` under Unicode 6.3 and later, so U+180E is not whitespace. Older log4j versions, which blank-checked with `trim()` (every character up to U+0020), are not modelled.
- `OpenTelemetryConfig.MaskAuthHeader`: the 24-character bound and the cut count characters (Unicode scalar values), while Java's `length()` and `substring` count UTF-16 code units. A header value with characters outside the Basic Multilingual Plane would be masked differently, and Java's cut could split a surrogate pair, which the model cannot express. The two counts agree on ASCII values, and the only value the resolver puts under the headers key is the ASCII header of `GetBasicAuthHeader` (`BasicAuthHeaderIsAscii`).
- `ParseDecimal` is the partner of the decimal form and not a model of `Integer.parseInt`. It accepts only what `Integer.toString` writes. It has no 32-bit range check, and it rejects the '+' sign, leading zeros and non-ASCII digits that `parseInt` accepts.
- `OpenTelemetryConfig.GetBasicAuthHeader`: the full header for instance 123 and key "secret" is stated only in two steps, `Utf8.CredentialBytes` ("123:secret" to its ASCII bytes) and `Base64.CredentialExample` (those bytes to "MTIzOnNlY3JldA=="). There is no single statement about `GetBasicAuthHeader(123, Some("secret"))`.
