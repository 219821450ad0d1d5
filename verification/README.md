# Centralduino provisioning and hub identity, in Dafny

Centralduino is ESP8266 firmware that connects a device to Azure IoT
Central. This project models the part of it that works on strings:

- **Device provisioning (DPS).** `AzureDpsClass` builds the
  `authorization: SharedAccessSignature …&skn=registration` header. It
  formats the literal HTTP/1.1 register (PUT) and poll (GET) requests,
  keeps at most 1023 bytes of the response from its first `{`, and pulls
  out the value after `{"operationId":"` or `"assignedHub":"`.
  `getHubHostName` makes one register call and then up to five polls.
- **Hub identity.** `ensureHubConnected` formats
  `HostName=…;DeviceId=…;SharedAccessKey=…`. Then
  `getUsernameAndPasswordFromConnectionString` finds the three markers and
  slices out the fields. It signs `<host>%2Fdevices%2F<device>\n<expiry>000`
  and builds the MQTT password (a SAS token) and the username.
- **Direct methods.** `handleIncomingMessage` cuts the MQTT topic into
  tokens with `strtok`. A `$iothub/methods/POST/<name>/?$rid=<rid>` topic
  reaches `handleIncomingDirectMethod`, which searches the 10-slot registry
  that `registerDeviceMethod` fills. The first match is called and
  answered on `$iothub/methods/res/200/?$rid=<rid>`.

Modules and files:

| module | file | contents |
|---|---|---|
| `CStrings` | `cstrings.dfy` | `Option`, `Outcome`, `StringBuffer::indexOf`, `%zu` formatting, snprintf truncation, C strings, splitting on a separator |
| `StringBuffer` | `string_buffer.dfy` | the StringBuffer transforms (URL encoding, base64, HMAC) as an injected `Codec` |
| `Sas` | `sas.dfy` | SAS tokens: string to sign, signature, token text and reading it back |
| `ConnectionString` | `connection_string.dfy` | the connection string and `getUsernameAndPasswordFromConnectionString` |
| `Dps` | `dps.dfy` | `getDPSAuthString`, `getOperationId`, `getHubHostName` |
| `DirectMethods` | `direct_methods.dfy` | `strtok`, topic routing, the registry, dispatch and response |
| `Hub` | `hub.dfy` | the identity half of `ensureHubConnected` |

How the model represents the firmware:

- Each routine is a pure function over `seq<char>`. The loops of
  `getOperationId` (connect, wait, read) are also written as methods with
  loop invariants, and each is proved equal to its function.
- A routine ends in one of three ways, given by the `Outcome` type:
  - `Ok(value)`: it returns 0 with a value.
  - `Failed`: it returns 1.
  - `Faulted(reason)`: one of its `assert()`s fires, or it breaks a
    buffer's contract.
- Where the code as written reaches undefined behaviour, the model says
  so with an `Undefined` or `NullToken` value. Examples are a NULL `strtok`
  token passed to `strcmp`, or a `sprintf` past the end of its buffer.
  Each such routine has an `…AsWritten` version and a corrected version.
  A lemma shows that the two agree wherever the as-written one is defined.
- The network is a parameter. For one call, `DpsIo` holds:
  - which connect attempts succeed;
  - at which 100 ms check bytes become available;
  - the bytes that arrive.
- The current time is a parameter: `expires` is `time(NULL) + AUTH_EXPIRES`.

## Model

| member | source | states |
|---|---|---|
| CStrings.IndexOfSpec | lib/Centralduino/string_buffer.h:34 | indexOf returns the first offset at or after the start index where the text occurs, and -1 exactly when it occurs nowhere from there on |
| CStrings.DecimalRoundTrip | lib/Centralduino/centralduino.cpp:363-364 | the `%zu` decimal text of an expiry reads back as that number |
| Sas.SerializeWithKeyName | lib/Centralduino/azure_dps.cpp:40-41 | the provisioning token is the hub-style token `sr=…&sig=…&se=…000` followed by `&skn=<name>` |
| Sas.ParseSerialize | lib/Centralduino/centralduino.cpp:376-378 | if no field holds `&`, the token reads back as exactly the resource, signature, expiry and key name it was built from |
| ConnectionString.LocateFields | lib/Centralduino/centralduino.cpp:324-344 | found marker offsets lie inside the string, and the device marker comes after `HostName=` |
| ConnectionString.LocateFieldsSpec | lib/Centralduino/centralduino.cpp:324-344 | the searches fail (return 1) exactly when the string does not start with `HostName=`, or lacks `;DeviceId=`, or lacks `;SharedAccessKey=`; otherwise they find the first occurrence of each marker |
| ConnectionString.UsernameBufferFits | lib/Centralduino/centralduino.cpp:384-385 | the username buffer sized as template length − 3 + host length + device length is exactly one byte longer than the username |
| ConnectionString.Username | lib/Centralduino/centralduino.cpp:384-391 | the username snprintf leaves in that buffer is never cut short: `<host>/<device>/api-version=2016-11-14` |
| ConnectionString.HubPassword | lib/Centralduino/centralduino.cpp:359-382 | a string to sign longer than its buffer (encoded host length + 128) breaks the buffer; otherwise the routine returns 1 exactly when no signature of the buffer's bytes exists, an assert fires exactly when the token reaches 512 bytes, and success is the SAS token over the resource and expiry carrying that signature |
| ConnectionString.SignedWhole | lib/Centralduino/centralduino.cpp:359-365 | a string to sign shorter than its buffer is signed whole |
| ConnectionString.SignedCutShort | lib/Centralduino/centralduino.cpp:359-368 | a string to sign exactly as long as its buffer is signed with its last `0` replaced by snprintf's terminator, so the signed bytes differ from the text the token's `sr=` and `se=` describe |
| ConnectionString.DeriveCredentials | lib/Centralduino/centralduino.cpp:317-394 | a missing marker, or the key marker before the device marker, returns 1 with all outputs untouched; otherwise the host name and device id are the slices between the markers, and the password is the hub password signed with the key field; when signing fails, username and password are untouched; on success the four buffers hold the credentials and the username has its fixed format |
| ConnectionString.DeriveFromFields | lib/Centralduino/centralduino.cpp:346-391 | the host and device buffers are filled before signing; the outcome follows the password's; username and password are written only on success |
| ConnectionString.LocateBuild | lib/Centralduino/centralduino.cpp:230-231 | on a built connection string whose host and device hold no later marker, the searches find each marker exactly where it was placed |
| ConnectionString.DeriveFromBuilt | lib/Centralduino/centralduino.cpp:346-350 | parsing a built connection string returns exactly the host and device it was built from, and signs with its key |
| ConnectionString.PasswordSignsItsFields | lib/Centralduino/centralduino.cpp:359-378 | when the string to sign fits its buffer, the password's `sr=` and `se=` read back as the resource and expiry that were signed, and its `sig=` is the signature of exactly that text |
| ConnectionString.DeriveCredentialsAsWritten | lib/Centralduino/centralduino.cpp:317-350 | a missing marker returns 1 with the outputs untouched; once the markers are found the host name buffer holds the text between `HostName=` and the device marker; with the key marker first the device id length is negative and the routine breaks before the device id is written; any identity it returns has the fixed username format |
| ConnectionString.DeriveAgrees | lib/Centralduino/centralduino.cpp:346-350 | the routine as written does what the corrected routine does, except on a string whose key marker comes before its device marker, where it breaks |
| ConnectionString.LocateReordered | lib/Centralduino/centralduino.cpp:332-344 | on a string with the key field before the device id, both marker searches succeed |
| ConnectionString.ReorderedFields | lib/Centralduino/centralduino.cpp:346-347 | every marker-free key-first string passes the searches, breaks the routine as written, and makes the corrected routine return 1 with its outputs untouched |
| Dps.DpsHeaderText | lib/Centralduino/azure_dps.cpp:40-41 | the header the format spells out is `authorization: ` followed by the SAS token with resource, signature, expiry and key name `registration` |
| Dps.GetDpsAuthString | lib/Centralduino/azure_dps.cpp:12-46 | an assert fires exactly when the resource or the string to sign reaches 256 bytes, or the header does not fit the caller's buffer; returns 1 exactly when the texts fit and no signature exists; on success it returns that header, shorter than the buffer |
| Dps.AuthHeaderSignsItsFields | lib/Centralduino/azure_dps.cpp:21-43 | the header's token reads back as the resource and expiry that were signed, with key name `registration` and the signature of exactly that text |
| Dps.ContentLengthIsBodyLength | lib/Centralduino/azure_dps.cpp:75 | the content-length computed from the template equals the byte length of the body sent, and its decimal text reads back as that length |
| Dps.PutRequestWire | lib/Centralduino/azure_dps.cpp:76-89 | the register text is a request laid out as section 3 of RFC 7230 describes: request line, seven field lines, an empty line, then a body holding the raw device id while the path holds the encoded one; a CRLF and four spaces follow the body |
| Dps.GetRequestWire | lib/Centralduino/azure_dps.cpp:94-104 | the poll text is a request laid out as section 3 of RFC 7230 describes, with six field lines and no body |
| Dps.ConnectSpec | lib/Centralduino/azure_dps.cpp:59-62 | one to five connect attempts are made; every attempt but the last failed; the client is connected exactly when the last attempt succeeded |
| Dps.Connect | lib/Centralduino/azure_dps.cpp:59-61 | the retry loop makes that many attempts and ends connected exactly when some attempt within five succeeds |
| Dps.WaitForResponse | lib/Centralduino/azure_dps.cpp:110-121 | the wait succeeds exactly when bytes are available by check number 10 × timeout + 1, after as many 100 ms delays as checks that found nothing |
| Dps.CapturedBody | lib/Centralduino/azure_dps.cpp:123-138 | at most 1023 bytes are kept; nothing if no `{` arrives; otherwise a prefix of the bytes from the first `{`, either all of them or exactly 1023 |
| Dps.Capture | lib/Centralduino/azure_dps.cpp:123-138 | the byte-by-byte read loop keeps exactly that captured body |
| Dps.ExtractFound | lib/Centralduino/azure_dps.cpp:140-156 | a non-empty value without `"` that follows the first marker and is closed by `"` is extracted exactly |
| Dps.ExtractNoMarker | lib/Centralduino/azure_dps.cpp:140-148 | without the marker there is no value (return 1) |
| Dps.ExtractNoQuote | lib/Centralduino/azure_dps.cpp:151-154 | without a `"` from one past the marker's end there is no value (return 1) |
| Dps.ExtractEmptyValue | lib/Centralduino/azure_dps.cpp:151-156 | since the quote search starts one past the marker's end, an empty value `""` is never returned as empty |
| Dps.GetOperationId | lib/Centralduino/azure_dps.cpp:48-162 | one to five connect attempts; with no connection it returns 1 before writing anything; once connected, the request and println's CRLF are written exactly when the request is shorter than 1024 bytes, and the assert stops the call exactly when it is not; the client is stopped exactly when the request was written; a value is returned exactly when the request was answered in time and the captured body holds the marker and a closing quote, and it is that extracted value |
| Dps.RegisterYieldsOperationId | lib/Centralduino/azure_dps.cpp:123-156 | a register call that connects and is answered with headers without `{`, then `{"operationId":"<v>"…`, returns `v` |
| Dps.PollCalls | lib/Centralduino/azure_dps.cpp:183-190 | between one and five polls, each for the same operation; every poll but the last returned 1; some poll succeeded exactly when the last one did |
| Dps.LookupWith | lib/Centralduino/azure_dps.cpp:164-194 | with no header, no call is made and the header's outcome is returned; otherwise the first call registers; polls follow only a successful register, at most five, each for the returned operation id; polling goes on while polls return 1 and stops at the first that does not, so fewer than five polls means the last did not return 1; the routine returns what its last call returned, so 0 exactly when the register call and some poll succeeded, with the last poll's hub name |
| Dps.GetHubHostName | lib/Centralduino/azure_dps.cpp:164-194 | the header is built in a 256-byte buffer; if that fails no call is made; otherwise the calls are the register request with that header followed by polls, made only after a successful register, for the operation id it returned |
| Dps.HubHostNameResult | lib/Centralduino/azure_dps.cpp:164-194 | once the header is built: at most five polls, all but the last returning 1, fewer than five only when the last did not return 1; the routine returns what its last call returned, so 0 with the hub name exactly when the register call and the last poll succeeded |
| DirectMethods.StrTokNone | lib/Centralduino/centralduino.cpp:115-123 | strtok returns NULL exactly when only delimiters are left |
| DirectMethods.StrTokSkip | lib/Centralduino/centralduino.cpp:115 | leading delimiters do not change what strtok returns |
| DirectMethods.StrTokCons | lib/Centralduino/centralduino.cpp:124-138 | a token followed by a delimiter is returned whole, and scanning resumes just after the delimiter |
| DirectMethods.TokensArePieces | lib/Centralduino/centralduino.cpp:115-138 | successive strtok calls return the pieces of the text between delimiters, in order, with the empty pieces skipped |
| DirectMethods.RouteLevels | lib/Centralduino/centralduino.cpp:115-136 | the routine's first four strtok calls return the topic's first four levels, or NULL where the topic has fewer |
| DirectMethods.RouteAsWritten | lib/Centralduino/centralduino.cpp:107-144 | in terms of the topic's levels: none gives the first warning; a first level other than `$iothub`, or a second other than `methods`, is ignored; `$iothub/methods/<verb>` with a verb other than `POST` gives the second warning; below four levels a NULL token is used exactly for `$iothub`, `$iothub/methods` and `$iothub/methods/POST`; a call is made only under `$iothub/methods/POST` and names the fourth level |
| DirectMethods.Route | lib/Centralduino/centralduino.cpp:107-144 | corrected routing never uses a NULL token; it agrees with the routing as written wherever that uses none; where the code as written would use a NULL token, the topic is ignored or rejected with the second warning |
| DirectMethods.RouteMethodTopic | lib/Centralduino/centralduino.cpp:115-141 | for `$iothub/methods/POST/<name>/?$rid=<rid>`, the name and request id reach the handler unchanged |
| DirectMethods.RouteOtherVerb | lib/Centralduino/centralduino.cpp:126-134 | a method topic whose third token is not `POST` gets the second warning and is not dispatched |
| DirectMethods.RouteMethodOnlyForPost | lib/Centralduino/centralduino.cpp:121-135 | a method is dispatched only when the first three tokens are `$iothub`, `methods`, `POST` |
| DirectMethods.BareIothub | lib/Centralduino/centralduino.cpp:121-124 | for `$iothub` followed by nothing but slashes, the code as written strcmp's a NULL token; the corrected routing ignores the topic |
| DirectMethods.MissingVerb | lib/Centralduino/centralduino.cpp:124-129 | for `$iothub/methods` followed by nothing but slashes, the code as written strcmp's a NULL token; the corrected routing rejects the topic |
| DirectMethods.MissingName | lib/Centralduino/centralduino.cpp:136-141 | for a method topic that stops after `POST`, the code as written passes a NULL name on; the corrected routing rejects the topic |
| DirectMethods.RegisterAsWritten | lib/Centralduino/centralduino.cpp:76-81 | registration writes slot 0 and leaves slots 1 to 9 unchanged |
| DirectMethods.SecondRegistration | lib/Centralduino/centralduino.cpp:76-81 | as written, registering a second name evicts the first; the corrected registry keeps both, and each dispatches to its own callback |
| DirectMethods.FindFromSpec | lib/Centralduino/centralduino.cpp:91-95 | the registry search finds the first slot holding the name, and finds nothing exactly when no slot does |
| DirectMethods.Register | lib/Centralduino/centralduino.cpp:76-81 | the corrected registration refuses exactly when the name is new and all ten slots are taken; otherwise it sets exactly one slot to the name and callback: the first slot holding the name, or, when none does, the first empty slot |
| DirectMethods.RegisterThenDispatch | lib/Centralduino/centralduino.cpp:76-103 | after a registration, a call of that name reaches its callback, and every other name dispatches as before |
| DirectMethods.DispatchAsWritten | lib/Centralduino/centralduino.cpp:86-105 | a request id of 70 or more characters overflows the 100-byte response topic; a call that is answered calls the first slot registered under the name and gets `{}` on `$iothub/methods/res/200/?$rid=<rid>` |
| DirectMethods.Dispatch | lib/Centralduino/centralduino.cpp:86-105 | nothing happens exactly when no slot holds the name; otherwise the first slot holding it is called and answered with `{}` on the response topic for the request id |
| DirectMethods.ScanAgrees | lib/Centralduino/centralduino.cpp:91-103 | where the registry loop as written does not reach an empty slot, it calls the first matching slot, or does nothing if no slot matches |
| DirectMethods.DispatchAgrees | lib/Centralduino/centralduino.cpp:86-105 | the dispatch as written either reaches undefined behaviour or does what the corrected dispatch does |
| DirectMethods.LongRequestId | lib/Centralduino/centralduino.cpp:88-90 | a request id of 70 or more characters overflows the response topic buffer as written; the corrected answer carries the whole request id |
| DirectMethods.UnknownMethod | lib/Centralduino/centralduino.cpp:91-95 | after one registration, a call of any other name makes the code as written strcmp slot 1's NULL name; the corrected dispatch does nothing |
| DirectMethods.HandleIncomingMessage | lib/Centralduino/centralduino.cpp:107-144 | the corrected callback never reaches undefined behaviour, and every answer goes to the response topic of the routed request id |
| DirectMethods.HandleIncomingMessageAsWritten | lib/Centralduino/centralduino.cpp:107-144 | a topic without levels gets the first warning, and a method topic with a verb other than `POST` exactly the second; `$iothub`, `$iothub/methods` and `$iothub/methods/POST` reach undefined behaviour; a callback runs only for a `$iothub/methods/POST/<name>` topic, and it is the first one registered under `<name>` |
| DirectMethods.HandleAgrees | lib/Centralduino/centralduino.cpp:107-144 | the callback as written either reaches undefined behaviour or agrees with the corrected callback |
| DirectMethods.MethodCallAnswered | lib/Centralduino/centralduino.cpp:86-141 | a well-formed method call for a registered name is answered on `$iothub/methods/res/200/?$rid=<rid>` with `{}`, by the first callback registered under that name |
| Hub.ConnectionText | lib/Centralduino/centralduino.cpp:228-232 | the connection string is `HostName=<hub>;DeviceId=<device>;SharedAccessKey=<key>`, and the assert fires exactly when it does not fit CONN_STR_MAX_LEN |
| Hub.EnsureHubIdentityAsWritten | lib/Centralduino/centralduino.cpp:213-256 | a failed lookup gives up before connecting; any identity it connects with comes from a connection string that fit; it is undefined exactly when the credential routine returns 1, because the default-constructed username and password are then still NULL when traced with `%s` and passed to connect |
| Hub.EnsureHubIdentity | lib/Centralduino/centralduino.cpp:213-236 | with the return code checked: a failed lookup gives up, and any identity comes from parsing a connection string that fit |
| Hub.IdentityOfAssignedHub | lib/Centralduino/centralduino.cpp:221-236 | the device connects as the hub the service assigned and the configured device, with the username for them and the hub password signed with the configured key; as written and corrected agree here |
| Hub.IdentityAgrees | lib/Centralduino/centralduino.cpp:213-256 | wherever the routine as written is defined it agrees with the corrected one, except that it may stop at an assert where the corrected one returns 1 |
| Hub.SigningFailureConnects | lib/Centralduino/centralduino.cpp:218-256 | when signing fails, the code as written traces the still NULL username and password with `%s` and connects with them, which is undefined; the corrected routine does not connect |
| Hub.ConnectionStringTooLong | lib/Centralduino/centralduino.cpp:229-232 | a connection string too long for its buffer stops the device at the assert |

## Left out

- WiFi, NTP, TLS and MQTT plumbing are left out: `setup`, `loop`,
  `ensureWiFiConnected`, `syncNtpTime`, `sendTwinUpdateRequest`, the
  subscriptions in `registerCallbacks`, and the MQTT connect loop of
  `ensureHubConnected` (lines 244-268). They are blocking I/O against
  libraries that are not shown. `Hub` ends where the credentials are
  handed to the MQTT client.
- `sendProperty` and `sendMeasurement` are left out: they go through
  ArduinoJson and `double` values.
- `config.cpp` (SPIFFS and JSON) and `src/main.cpp` (timers, `rand`,
  restart) are left out.
- URL encoding, base64 and HMAC-SHA256 are left uninterpreted: their
  bodies (`string_buffer.cpp`) are not part of this model. They are
  fields of `Codec`. Nothing is claimed about them, and no round trip
  through them is proved.
- The model assumes the following about the StringBuffer primitives,
  since `string_buffer.cpp` is not part of this model:
  - a transform that fails leaves the buffer as it was;
  - `StringBuffer(n)` allocates `n` characters and a terminator;
  - `setLength` beyond the allocation is a fault;
  - `setLength(l)` within the allocation writes a terminator at `l`.
    `ExtractValue` reads the operation id and host name as the C string
    from the marker's end, so it relies on the terminator written at the
    closing quote (`azure_dps.cpp:155-156`);
  - `hash` digests the buffer's `length` bytes;
  - the copying constructors copy and terminate.
  - what URL encoding, base64 encoding and HMAC return holds no NUL
    character. The `%s` conversions that format these results would
    stop at one, but the model concatenates them whole.
- `defines.h` is not part of this model. Its constants are handled as
  follows:
  - The marker texts are those of the format string at
    `centralduino.cpp:231`.
  - `AUTH_EXPIRES` is folded into the `expires` parameter.
  - `IOTC_SERVER_RESPONSE_TIMEOUT` is the `timeout` parameter.
  - `AZURE_IOT_CENTRAL_CLIENT_SIGNATURE` is the `signature` parameter.
  - `CONN_STR_MAX_LEN` is the `connStrMax` parameter.
- Delays and timing are not modelled. `WaitForResponse` counts its 100 ms
  waits. The 250 ms pauses of `getHubHostName` are left out.
- `available()` is taken to be true until the received bytes run out.
  The response is a finite sequence that has fully arrived.
- `GetDpsAuthString`, `HubPassword`: `expires` is an unbounded natural.
  The 32-bit wrap-around of `size_t` on the ESP8266 is not modelled,
  because the expiry is decades away from 2^32.
- `GetOperationId`: the extracted value is copied with `strcpy` into the
  caller's 64-byte operation id or 128-byte host name buffer, with no
  bound check. The model's destinations are unbounded, so an overlong
  value is not reported as an overflow.
- `GetOperationId`: the register request carries `\r\n    ` after its
  declared body: 6 bytes beyond the content-length in the format, 8 on the
  wire with println's CRLF. `PutRequestWire`
  states this exactly; the model does not say how a server treats it.
- Field order: the connection string's fields are found by searching for
  markers. The code never checks that `;DeviceId=` comes before
  `;SharedAccessKey=`, and its comment (`centralduino.cpp:321`) calls this
  a dependence on order. The model follows the code
  (`DeriveCredentialsAsWritten`). The corrected `DeriveCredentials`
  rejects the other order with return code 1, like a missing marker.
- Logging (`Log.*`) is left out. Arguments that are only logged are not
  modelled, except where printing a NULL `%s` is itself undefined.

## Findings

| source | as written | input that shows it | evidently intended | confidence | as-written member | corrected member |
|---|---|---|---|---|---|---|
| lib/Centralduino/centralduino.cpp:347 | the device id length is `keyIndex - (deviceIndex + DEVICEID_LENGTH)`, computed without checking that the key marker comes after the device marker | `HostName=h;SharedAccessKey=k;DeviceId=d` gives a negative length passed to `initialize` | reject the string with return code 1, as for a missing marker | not executed | `ConnectionString.DeriveCredentialsAsWritten` (shown by `ConnectionString.ReorderedFields`, `ConnectionString.DeriveAgrees`) | `ConnectionString.DeriveCredentials` |
| lib/Centralduino/centralduino.cpp:79-80 | `registerDeviceMethod` always writes slot 0 | registering `a` and then `b` leaves `a` unreachable | add the method to the registry, as the comment on line 78 says | not executed | `DirectMethods.RegisterAsWritten` (shown by `DirectMethods.SecondRegistration`) | `DirectMethods.Register` |
| lib/Centralduino/centralduino.cpp:93 | the loop strcmp's every slot's name, and empty slots hold NULL | after one registration, a call of any other name reaches slot 1 | skip empty slots; an unknown name does nothing | not executed | `DirectMethods.DispatchAsWritten` (shown by `DirectMethods.UnknownMethod`) | `DirectMethods.Dispatch` |
| lib/Centralduino/centralduino.cpp:88-90 | `sprintf` into `char responseTopic[100]` after a 30-character prefix | a request id of 70 characters | the response topic always holds the whole request id | not executed | `DirectMethods.DispatchAsWritten` (shown by `DirectMethods.LongRequestId`) | `DirectMethods.Dispatch` |
| lib/Centralduino/centralduino.cpp:124-141 | the second and third tokens are strcmp'd, and the name and request id passed on, without a NULL check | the topics `$iothub`, `$iothub/methods` and `$iothub/methods/POST` | ignore or reject such a topic | not executed | `DirectMethods.RouteAsWritten` (shown by `DirectMethods.BareIothub`, `DirectMethods.MissingVerb`, `DirectMethods.MissingName`) | `DirectMethods.Route` |
| lib/Centralduino/centralduino.cpp:236 | the return code of `getUsernameAndPasswordFromConnectionString` is ignored | a key whose signature cannot be encoded: the username and password buffers, default-constructed at line 218, are still NULL when traced (lines 241-242, 254) and passed to `connect` (line 257) | do not connect when the credentials could not be derived | not executed | `Hub.EnsureHubIdentityAsWritten` (shown by `Hub.SigningFailureConnects`) | `Hub.EnsureHubIdentity` |
