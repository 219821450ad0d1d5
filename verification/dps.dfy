/** Device provisioning (AzureDpsClass, azure_dps.cpp): the
    `authorization:` header, the register (PUT) and poll (GET) requests,
    the scan of the response, and the retry logic that turns a scope id,
    device id and key into the name of the assigned hub.

    The network is abstracted: one call sees a `DpsIo` saying which
    connect attempts succeed, after how many checks the response starts
    to arrive and which bytes arrive. */
module Dps {
  import opened CStrings
  import opened StringBuffer
  import opened Sas

  // ---------------------------------------------------------------
  // getDPSAuthString

  /** The resource the provisioning token grants: the scope id as given,
      then `/registrations/` written as `%2F`, then the URL-encoded
      device id. */
  function DpsResource(codec: Codec, scope: seq<char>, device: seq<char>): seq<char>
  {
    scope + "%2Fregistrations%2F" + UrlEncoded(codec, device)
  }

  const HeaderName := "authorization: "

  /** Both texts fit the 256-byte buffer they are formatted into. */
  predicate DpsTextFits(codec: Codec, scope: seq<char>, device: seq<char>, expires: nat)
  {
    && |DpsResource(codec, scope, device)| < 256
    && |StringToSign(DpsResource(codec, scope, device), expires)| < 256
  }

  /** The signature of the provisioning token. */
  function DpsSignature(codec: Codec, scope: seq<char>, device: seq<char>, key: seq<char>, expires: nat): Option<seq<char>>
  {
    Sign(codec, key, StringToSign(DpsResource(codec, scope, device), expires))
  }

  /** The header line for a given signature. */
  function DpsHeader(codec: Codec, scope: seq<char>, device: seq<char>, sig: seq<char>, expires: nat): seq<char>
  {
    HeaderName + Serialize(SasToken(DpsResource(codec, scope, device), sig, expires, Some("registration")))
  }

  /** The header as the format string spells it out is that line. */
  lemma DpsHeaderText(codec: Codec, scope: seq<char>, device: seq<char>, sig: seq<char>, expires: nat)
    ensures "authorization: SharedAccessSignature sr=" + DpsResource(codec, scope, device) + "&sig=" + sig
            + "&se=" + Decimal(expires) + "000&skn=registration"
            == DpsHeader(codec, scope, device, sig, expires)
  {
    var sr := DpsResource(codec, scope, device);
    SerializeWithoutKeyName(sr, sig, expires);
    SerializeWithKeyName(sr, sig, expires, "registration");
    HeaderLead();
    KeyNameTail();
    Regroup(HeaderName, Scheme, sr, "&sig=", sig, "&se=", Decimal(expires), "000", "&skn=", "registration");
  }

  lemma HeaderLead()
    ensures "authorization: SharedAccessSignature sr=" == HeaderName + Scheme
  {
  }

  lemma KeyNameTail()
    ensures "000&skn=registration" == "000" + "&skn=" + "registration"
  {
  }

  lemma Regroup(h: seq<char>, sc: seq<char>, sr: seq<char>, s1: seq<char>, sig: seq<char>, s2: seq<char>,
                d: seq<char>, z: seq<char>, k: seq<char>, n: seq<char>)
    ensures (h + sc) + sr + s1 + sig + s2 + d + (z + k + n) == h + ((sc + sr + s1 + sig + s2 + d + z) + k + n)
  {
  }

  /** getDPSAuthString: the header line handed to both requests, as the
      C string left in a buffer of `bufferSize` bytes. */
  function GetDpsAuthString(scope: seq<char>, device: seq<char>, key: seq<char>, expires: nat, bufferSize: nat, codec: Codec)
    : (r: Outcome<seq<char>>)
    ensures var sig := DpsSignature(codec, scope, device, key, expires);
      && (r.Faulted? <==>
           || !DpsTextFits(codec, scope, device, expires)
           || (sig.Some? && |DpsHeader(codec, scope, device, sig.value, expires)| >= bufferSize))
      && (r.Failed? <==> DpsTextFits(codec, scope, device, expires) && sig.None?)
      && (r.Ok? ==>
           && sig.Some?
           && r.value == DpsHeader(codec, scope, device, sig.value, expires)
           && |r.value| < bufferSize)
  {
    // `%s%%2Fregistrations%%2F%s` of the scope and the encoded device id
    var sr := DpsResource(codec, scope, device);
    if |sr| >= 256 then Faulted("resource does not fit its 256-byte buffer")
    else
      // `%s\n%lu000`
      var toSign := StringToSign(sr, expires);
      if |toSign| >= 256 then Faulted("string to sign does not fit its 256-byte buffer")
      else
        var sig := Sign(codec, key, toSign);
        if sig.None? then Failed
        else
          var header := "authorization: SharedAccessSignature sr=" + sr + "&sig=" + sig.value
                        + "&se=" + Decimal(expires) + "000&skn=registration";
          DpsHeaderText(codec, scope, device, sig.value, expires);
          if |header| >= bufferSize then Faulted("header does not fit the caller's buffer")
          else Ok(header)
  }

  /** The header's token reads back as the resource and expiry that were
      signed, with that signature and the key name `registration`. */
  lemma AuthHeaderSignsItsFields(scope: seq<char>, device: seq<char>, key: seq<char>, expires: nat, bufferSize: nat, codec: Codec)
    requires GetDpsAuthString(scope, device, key, expires, bufferSize, codec).Ok?
    requires '&' !in DpsResource(codec, scope, device)
    requires var sig := DpsSignature(codec, scope, device, key, expires); sig.Some? && '&' !in sig.value
    ensures var h := GetDpsAuthString(scope, device, key, expires, bufferSize, codec).value;
      && HeaderName <= h
      && var t := ParseSasToken(h[|HeaderName|..]);
         && t.Some?
         && t.value.resource == DpsResource(codec, scope, device)
         && t.value.expiry == expires
         && t.value.keyName == Some("registration")
         && Sign(codec, key, StringToSign(t.value.resource, t.value.expiry)) == Some(t.value.signature)
  {
    var sig := DpsSignature(codec, scope, device, key, expires);
    var t := SasToken(DpsResource(codec, scope, device), sig.value, expires, Some("registration"));
    var h := GetDpsAuthString(scope, device, key, expires, bufferSize, codec).value;
    assert h == HeaderName + Serialize(t);
    assert h[|HeaderName|..] == Serialize(t);
    ParseSerialize(t);
  }

  // ---------------------------------------------------------------
  // The two requests

  /** An HTTP/1.1 request as section 3 of RFC 7230 lays it out: request
      line, header field lines each ended by CRLF, an empty line, then
      the body. Field lines are kept whole (`name: value`) because two of
      them are supplied as ready-made text. */
  datatype HttpRequest = HttpRequest(verb: seq<char>, target: seq<char>, fields: seq<seq<char>>, body: seq<char>)

  const CrLf := "\r\n"

  function RequestLine(r: HttpRequest): seq<char>
  {
    r.verb + " " + r.target + " HTTP/1.1"
  }

  /** Each field line followed by CRLF. */
  function FieldLines(fields: seq<seq<char>>): seq<char>
  {
    if |fields| == 0 then [] else fields[0] + CrLf + FieldLines(fields[1..])
  }

  /** The octets of a request on the wire. */
  function Wire(r: HttpRequest): seq<char>
  {
    RequestLine(r) + CrLf + FieldLines(r.fields) + CrLf + r.body
  }

  /** The template whose length, less two for its `%s`, sizes the body. */
  const RegistrationTemplate := "{\"registrationId\":\"%s\"}"

  /** The register body names the device by its raw id. */
  function RegistrationBody(device: seq<char>): seq<char>
  {
    "{\"registrationId\":\"" + device + "\"}"
  }

  /** The content-length the firmware computes from the template. */
  function RegistrationLength(device: seq<char>): nat
  {
    |RegistrationTemplate| + |device| - 2
  }

  /** The content-length computed from the template is the length of the
      body actually sent, and printed in decimal it reads back as that
      length (section 3.3.2 of RFC 7230). */
  lemma ContentLengthIsBodyLength(device: seq<char>)
    ensures RegistrationLength(device) == |RegistrationBody(device)|
    ensures DecimalValue(Decimal(RegistrationLength(device))) == |RegistrationBody(device)|
  {
    DecimalRoundTrip(RegistrationLength(device));
  }

  /** The register request as the format string spells it out, one
      parenthesised group per line of the format, including what follows
      the body: a CRLF and four spaces. */
  function PutRequestText(scope: seq<char>, deviceEnc: seq<char>, endpoint: seq<char>, signature: seq<char>,
                          auth: seq<char>, device: seq<char>): seq<char>
  {
    ("PUT /" + scope + "/registrations/" + deviceEnc + "/register?api-version=2018-11-01 HTTP/1.1") + CrLf
    + ("Host: " + endpoint) + CrLf
    + "content-type: application/json; charset=utf-8" + CrLf
    + signature + CrLf
    + "accept: */*" + CrLf
    + ("content-length: " + Decimal(RegistrationLength(device))) + CrLf
    + auth + CrLf
    + "connection: close" + CrLf
    + CrLf
    + ("{\"registrationId\":\"" + device + "\"}") + CrLf
    + "    "
  }

  /** The poll request as the format string spells it out. */
  function GetRequestText(scope: seq<char>, deviceEnc: seq<char>, operationId: seq<char>, endpoint: seq<char>,
                          signature: seq<char>, auth: seq<char>): seq<char>
  {
    ("GET /" + scope + "/registrations/" + deviceEnc + "/operations/" + operationId + "?api-version=2018-11-01 HTTP/1.1") + CrLf
    + ("Host: " + endpoint) + CrLf
    + "content-type: application/json; charset=utf-8" + CrLf
    + signature + CrLf
    + "accept: */*" + CrLf
    + auth + CrLf
    + "connection: close" + CrLf
    + CrLf
  }

  /** The register request: the path carries the encoded id, the body the
      raw one, and content-length the body's length. */
  function PutRequest(scope: seq<char>, deviceEnc: seq<char>, endpoint: seq<char>, signature: seq<char>,
                      auth: seq<char>, device: seq<char>): HttpRequest
  {
    var body := RegistrationBody(device);
    HttpRequest("PUT", "/" + scope + "/registrations/" + deviceEnc + "/register?api-version=2018-11-01",
      ["Host: " + endpoint, "content-type: application/json; charset=utf-8", signature, "accept: */*",
       "content-length: " + Decimal(|body|), auth, "connection: close"],
      body)
  }

  /** The poll request: no body. */
  function GetRequest(scope: seq<char>, deviceEnc: seq<char>, operationId: seq<char>, endpoint: seq<char>,
                      signature: seq<char>, auth: seq<char>): HttpRequest
  {
    HttpRequest("GET", "/" + scope + "/registrations/" + deviceEnc + "/operations/" + operationId + "?api-version=2018-11-01",
      ["Host: " + endpoint, "content-type: application/json; charset=utf-8", signature, "accept: */*",
       auth, "connection: close"],
      [])
  }

  lemma FieldLinesOfSeven(l1: seq<char>, l2: seq<char>, l3: seq<char>, l4: seq<char>, l5: seq<char>, l6: seq<char>, l7: seq<char>)
    ensures FieldLines([l1, l2, l3, l4, l5, l6, l7])
            == l1 + CrLf + l2 + CrLf + l3 + CrLf + l4 + CrLf + l5 + CrLf + l6 + CrLf + l7 + CrLf
  {
    var f := [l1, l2, l3, l4, l5, l6, l7];
    assert FieldLines(f[6..]) == l7 + CrLf;
    assert FieldLines(f[5..]) == l6 + CrLf + (l7 + CrLf);
    assert FieldLines(f[4..]) == l5 + CrLf + (l6 + CrLf + (l7 + CrLf));
    assert FieldLines(f[3..]) == l4 + CrLf + (l5 + CrLf + (l6 + CrLf + (l7 + CrLf)));
    assert FieldLines(f[2..]) == l3 + CrLf + (l4 + CrLf + (l5 + CrLf + (l6 + CrLf + (l7 + CrLf))));
    assert FieldLines(f[1..]) == l2 + CrLf + (l3 + CrLf + (l4 + CrLf + (l5 + CrLf + (l6 + CrLf + (l7 + CrLf)))));
  }

  lemma PutRequestLine(scope: seq<char>, deviceEnc: seq<char>, endpoint: seq<char>, signature: seq<char>,
                       auth: seq<char>, device: seq<char>)
    ensures RequestLine(PutRequest(scope, deviceEnc, endpoint, signature, auth, device))
            == "PUT /" + scope + "/registrations/" + deviceEnc + "/register?api-version=2018-11-01 HTTP/1.1"
  {
    assert "PUT /" == "PUT" + " " + "/";
    assert "/register?api-version=2018-11-01 HTTP/1.1" == "/register?api-version=2018-11-01" + " HTTP/1.1";
  }

  /** The register request is laid out as section 3 of RFC 7230 asks,
      with a content-length equal to its body's length; the format then
      appends a CRLF and four spaces after the body. */
  lemma PutRequestWire(scope: seq<char>, deviceEnc: seq<char>, endpoint: seq<char>, signature: seq<char>,
                       auth: seq<char>, device: seq<char>)
    ensures PutRequestText(scope, deviceEnc, endpoint, signature, auth, device)
            == Wire(PutRequest(scope, deviceEnc, endpoint, signature, auth, device)) + CrLf + "    "
  {
    var r := PutRequest(scope, deviceEnc, endpoint, signature, auth, device);
    ContentLengthIsBodyLength(device);
    PutRequestLine(scope, deviceEnc, endpoint, signature, auth, device);
    FieldLinesOfSeven(r.fields[0], r.fields[1], r.fields[2], r.fields[3], r.fields[4], r.fields[5], r.fields[6]);
    assert r.fields == [r.fields[0], r.fields[1], r.fields[2], r.fields[3], r.fields[4], r.fields[5], r.fields[6]];
    RegroupSeven(RequestLine(r), r.fields[0], r.fields[1], r.fields[2], r.fields[3], r.fields[4], r.fields[5], r.fields[6],
                 r.body, "    ", CrLf);
  }

  lemma RegroupSeven(q: seq<char>, l1: seq<char>, l2: seq<char>, l3: seq<char>, l4: seq<char>, l5: seq<char>,
                     l6: seq<char>, l7: seq<char>, b: seq<char>, t: seq<char>, c: seq<char>)
    ensures q + c + l1 + c + l2 + c + l3 + c + l4 + c + l5 + c + l6 + c + l7 + c + c + b + c + t
            == q + c + (l1 + c + l2 + c + l3 + c + l4 + c + l5 + c + l6 + c + l7 + c) + c + b + c + t
  {
  }

  lemma FieldLinesOfSix(l1: seq<char>, l2: seq<char>, l3: seq<char>, l4: seq<char>, l5: seq<char>, l6: seq<char>)
    ensures FieldLines([l1, l2, l3, l4, l5, l6])
            == l1 + CrLf + l2 + CrLf + l3 + CrLf + l4 + CrLf + l5 + CrLf + l6 + CrLf
  {
    var f := [l1, l2, l3, l4, l5, l6];
    assert FieldLines(f[5..]) == l6 + CrLf;
    assert FieldLines(f[4..]) == l5 + CrLf + (l6 + CrLf);
    assert FieldLines(f[3..]) == l4 + CrLf + (l5 + CrLf + (l6 + CrLf));
    assert FieldLines(f[2..]) == l3 + CrLf + (l4 + CrLf + (l5 + CrLf + (l6 + CrLf)));
    assert FieldLines(f[1..]) == l2 + CrLf + (l3 + CrLf + (l4 + CrLf + (l5 + CrLf + (l6 + CrLf))));
  }

  lemma GetRequestLine(scope: seq<char>, deviceEnc: seq<char>, operationId: seq<char>, endpoint: seq<char>,
                       signature: seq<char>, auth: seq<char>)
    ensures RequestLine(GetRequest(scope, deviceEnc, operationId, endpoint, signature, auth))
            == "GET /" + scope + "/registrations/" + deviceEnc + "/operations/" + operationId + "?api-version=2018-11-01 HTTP/1.1"
  {
    assert "GET /" == "GET" + " " + "/";
    assert "?api-version=2018-11-01 HTTP/1.1" == "?api-version=2018-11-01" + " HTTP/1.1";
  }

  /** The poll request is laid out as section 3 of RFC 7230 asks, with no
      body. */
  lemma GetRequestWire(scope: seq<char>, deviceEnc: seq<char>, operationId: seq<char>, endpoint: seq<char>,
                       signature: seq<char>, auth: seq<char>)
    ensures GetRequestText(scope, deviceEnc, operationId, endpoint, signature, auth)
            == Wire(GetRequest(scope, deviceEnc, operationId, endpoint, signature, auth))
  {
    var r := GetRequest(scope, deviceEnc, operationId, endpoint, signature, auth);
    GetRequestLine(scope, deviceEnc, operationId, endpoint, signature, auth);
    FieldLinesOfSix(r.fields[0], r.fields[1], r.fields[2], r.fields[3], r.fields[4], r.fields[5]);
    assert r.fields == [r.fields[0], r.fields[1], r.fields[2], r.fields[3], r.fields[4], r.fields[5]];
    RegroupSix(RequestLine(r), r.fields[0], r.fields[1], r.fields[2], r.fields[3], r.fields[4], r.fields[5], CrLf);
  }

  lemma RegroupSix(q: seq<char>, l1: seq<char>, l2: seq<char>, l3: seq<char>, l4: seq<char>, l5: seq<char>,
                   l6: seq<char>, c: seq<char>)
    ensures q + c + l1 + c + l2 + c + l3 + c + l4 + c + l5 + c + l6 + c + c
            == q + c + (l1 + c + l2 + c + l3 + c + l4 + c + l5 + c + l6 + c) + c + []
  {
  }

  // ---------------------------------------------------------------
  // Connecting: `while (retry < 5 && !client.connect(...)) retry++;`

  const MaxConnects := 5

  /** Whether connect attempt `i` succeeds; attempts past the end of the
      list fail. */
  predicate Attempt(connects: seq<bool>, i: nat)
  {
    i < |connects| && connects[i]
  }

  /** The number of connect calls made when attempt `i` is next. */
  function AttemptsFrom(connects: seq<bool>, i: nat): (n: nat)
    requires i <= MaxConnects
    ensures i <= n <= MaxConnects
    ensures i < MaxConnects ==> i < n
    decreases MaxConnects - i
  {
    if i == MaxConnects then MaxConnects
    else if Attempt(connects, i) then i + 1
    else AttemptsFrom(connects, i + 1)
  }

  function ConnectAttempts(connects: seq<bool>): nat
  {
    AttemptsFrom(connects, 0)
  }

  /** The client ends up connected: one of the five attempts succeeded. */
  predicate Connected(connects: seq<bool>)
  {
    exists i :: 0 <= i < MaxConnects && Attempt(connects, i)
  }

  lemma {:induction false} AttemptsFromSpec(connects: seq<bool>, i: nat)
    requires i <= MaxConnects
    requires forall j :: 0 <= j < i ==> !Attempt(connects, j)
    ensures var n := AttemptsFrom(connects, i);
      && (forall j :: 0 <= j < n - 1 ==> !Attempt(connects, j))
      && (Connected(connects) <==> 0 < n && Attempt(connects, n - 1))
    decreases MaxConnects - i
  {
    if i < MaxConnects && !Attempt(connects, i) {
      AttemptsFromSpec(connects, i + 1);
    }
  }

  /** One to five attempts are made; every attempt but the last failed,
      and the client is connected exactly when the last one succeeded. */
  lemma ConnectSpec(connects: seq<bool>)
    ensures 1 <= ConnectAttempts(connects) <= MaxConnects
    ensures forall j :: 0 <= j < ConnectAttempts(connects) - 1 ==> !Attempt(connects, j)
    ensures Connected(connects) <==> Attempt(connects, ConnectAttempts(connects) - 1)
  {
    AttemptsFromSpec(connects, 0);
  }

  /** The connect loop itself. */
  method Connect(connects: seq<bool>) returns (connected: bool, attempts: nat)
    ensures attempts == ConnectAttempts(connects)
    ensures connected == Connected(connects)
  {
    var retry := 0;
    attempts := 0;
    while retry < MaxConnects
      invariant retry <= MaxConnects && attempts == retry
      invariant forall j :: 0 <= j < retry ==> !Attempt(connects, j)
      invariant AttemptsFrom(connects, retry) == ConnectAttempts(connects)
    {
      attempts := attempts + 1;
      if Attempt(connects, retry) {
        connected := true;
        return;
      }
      retry := retry + 1;
    }
    connected := false;
  }

  // ---------------------------------------------------------------
  // Waiting for the response: poll every 100 ms, give up after the
  // check numbered 10 * timeout + 1

  /** Whether the check numbered `check` finds bytes available, when they
      start to be available at check `firstAvailable` (None: never). */
  predicate Available(firstAvailable: Option<nat>, check: nat)
  {
    firstAvailable.Some? && firstAvailable.value <= check
  }

  /** The response arrives before the wait gives up. */
  predicate Answered(firstAvailable: Option<nat>, timeout: nat)
  {
    firstAvailable.Some? && firstAvailable.value <= 10 * timeout + 1
  }

  /** How many 100 ms delays the wait takes. */
  function WaitDelays(firstAvailable: Option<nat>, timeout: nat): nat
  {
    if Answered(firstAvailable, timeout) then firstAvailable.value else 10 * timeout + 2
  }

  /** The wait loop itself. */
  method WaitForResponse(firstAvailable: Option<nat>, timeout: nat) returns (answered: bool, delays: nat)
    ensures answered == Answered(firstAvailable, timeout)
    ensures delays == WaitDelays(firstAvailable, timeout)
  {
    var index := 0;
    delays := 0;
    while !Available(firstAvailable, index)
      invariant index <= 10 * timeout + 1 && delays == index
      invariant firstAvailable.None? || index <= firstAvailable.value
      decreases 10 * timeout + 1 - index
    {
      delays := delays + 1;
      if index > 10 * timeout {
        answered := false;
        return;
      }
      index := index + 1;
    }
    answered := true;
  }

  // ---------------------------------------------------------------
  // Reading the response

  const CaptureLimit := 1023

  /** What the scan keeps of the received bytes: nothing before the first
      `{`, and from there the longest prefix of at most 1023 bytes. */
  function CapturedBody(received: seq<char>): (c: seq<char>)
    ensures |c| <= CaptureLimit
    ensures '{' !in received ==> c == []
    ensures '{' in received ==>
      var f := FirstOf(received, '{');
      && c <= received[f..]
      && (c == received[f..] || |c| == CaptureLimit)
  {
    if '{' !in received then []
    else
      var f := FirstOf(received, '{');
      if |received| - f <= CaptureLimit then received[f..] else received[f..f + CaptureLimit]
  }

  lemma FirstOfAt(s: seq<char>, c: char, p: nat)
    requires p < |s| && s[p] == c && c !in s[..p]
    ensures FirstOf(s, c) == p
  {
    var k := FirstOf(s, c);
    assert k <= p by {
      assert p < |s[..p + 1]| && s[..p + 1][p] == c;
    }
    assert k >= p by {
      assert forall i :: 0 <= i < p ==> s[..p][i] == s[i];
    }
  }

  /** The scan loop itself, one byte per read. */
  method Capture(received: seq<char>) returns (captured: seq<char>)
    ensures captured == CapturedBody(received)
  {
    var p := 0;
    var saving := false;
    captured := [];
    while p < |received| && |captured| < CaptureLimit
      invariant p <= |received| && |captured| <= CaptureLimit
      invariant saving <==> '{' in received[..p]
      invariant !saving ==> captured == []
      invariant saving ==> FirstOf(received, '{') < p && captured == received[FirstOf(received, '{')..p]
    {
      var ch := received[p];
      if ch == '{' && !saving {
        FirstOfAt(received, '{', p);
      }
      if ch == '{' {
        saving := true;
      }
      if saving {
        captured := captured + [ch];
      }
      assert received[..p + 1] == received[..p] + [ch];
      p := p + 1;
    }
    if !saving {
      assert '{' !in received by {
        assert received[..p] == received;
      }
    }
  }

  // ---------------------------------------------------------------
  // Extracting the value

  const OperationIdMarker := "{\"operationId\":\""
  const AssignedHubMarker := "\"assignedHub\":\""

  /** The value after the first `marker`: the text up to the first `"`
      found from one position past the marker's end, as a C string. */
  function ExtractValue(buf: seq<char>, marker: seq<char>): (r: Option<seq<char>>)
    ensures r.Some? ==> '\0' !in r.value
  {
    var i := IndexOf(buf, marker, 0);
    if i == -1 then None
    else
      var start := i + |marker|;
      var j := IndexOf(buf, "\"", start + 1);
      if j == -1 then None
      else Some(CString(buf[start..j]))
  }

  /** The search for `"` stops at the first one. */
  lemma NextQuote(s: seq<char>, from: nat, q: nat)
    requires from <= q < |s| && s[q] == '"'
    requires forall j :: from <= j < q ==> s[j] != '"'
    ensures IndexOf(s, "\"", from) == q
  {
    forall j | from <= j < q
      ensures !OccursAt(s, "\"", j)
    {
      assert s[j..j + 1][0] == s[j];
    }
    assert s[q..q + 1] == "\"";
    IndexOfFrom(s, "\"", from, q);
  }

  /** A non-empty value held between the first marker and a `"` is
      extracted exactly. */
  lemma ExtractFound(buf: seq<char>, marker: seq<char>, i: nat, v: seq<char>)
    requires First(buf, marker, i)
    requires |v| > 0 && '"' !in v && '\0' !in v
    requires i + |marker| + |v| < |buf|
    requires buf[i + |marker|..i + |marker| + |v|] == v && buf[i + |marker| + |v|] == '"'
    ensures ExtractValue(buf, marker) == Some(v)
  {
    var start := i + |marker|;
    IndexOfIsFirst(buf, marker, i);
    assert forall j :: start + 1 <= j < start + |v| ==> buf[j] == v[j - start];
    NextQuote(buf, start + 1, start + |v|);
    CStringPlain(v);
    ExtractAt(buf, marker, i, start + |v|);
  }

  lemma ExtractAt(buf: seq<char>, marker: seq<char>, i: nat, q: nat)
    requires IndexOf(buf, marker, 0) == i
    requires IndexOf(buf, "\"", i + |marker| + 1) == q
    ensures ExtractValue(buf, marker) == Some(CString(buf[i + |marker|..q]))
  {
  }

  /** Without the marker there is no value. */
  lemma ExtractNoMarker(buf: seq<char>, marker: seq<char>)
    requires Absent(buf, marker)
    ensures ExtractValue(buf, marker).None?
  {
    IndexOfSpec(buf, marker, 0);
  }

  /** Without a `"` from one past the marker's end there is no value. */
  lemma ExtractNoQuote(buf: seq<char>, marker: seq<char>, i: nat)
    requires First(buf, marker, i)
    requires forall j :: i + |marker| < j < |buf| ==> buf[j] != '"'
    ensures ExtractValue(buf, marker).None?
  {
    IndexOfIsFirst(buf, marker, i);
    IndexOfSpec(buf, "\"", i + |marker| + 1);
    forall j | i + |marker| + 1 <= j
      ensures !OccursAt(buf, "\"", j)
    {
      if j < |buf| {
        assert buf[j..j + 1][0] == buf[j];
      }
    }
  }

  /** The search for the closing quote starts one past the marker's end,
      so an empty value `""` is never read as empty: what comes back
      starts with its closing quote. */
  lemma ExtractEmptyValue(buf: seq<char>, marker: seq<char>, i: nat)
    requires First(buf, marker, i)
    requires i + |marker| < |buf| && buf[i + |marker|] == '"'
    ensures ExtractValue(buf, marker) != Some([])
  {
    IndexOfIsFirst(buf, marker, i);
  }

  // ---------------------------------------------------------------
  // getOperationId

  /** What a call asks for: the register request (hostName == NULL) or a
      poll of an operation. */
  datatype Operation = Register | Poll(operationId: seq<char>)

  /** What the network does during one call: which connect attempts
      succeed, at which check the response starts to be available, and
      the bytes that arrive. */
  datatype DpsIo = DpsIo(connects: seq<bool>, firstAvailable: Option<nat>, received: seq<char>)

  /** What one call did: its outcome, how many connects it tried, the
      bytes it wrote (none if it never got to write) and whether it
      stopped the client. */
  datatype DpsCall = DpsCall(result: Outcome<seq<char>>, attempts: nat, sent: Option<seq<char>>, stopped: bool)

  /** The marker whose value the call extracts. */
  function Marker(op: Operation): seq<char>
  {
    match op
    case Register => OperationIdMarker
    case Poll(_) => AssignedHubMarker
  }

  /** The request a call formats. */
  function RequestText(endpoint: seq<char>, scope: seq<char>, device: seq<char>, auth: seq<char>,
                       signature: seq<char>, op: Operation, codec: Codec): seq<char>
  {
    var deviceEnc := UrlEncoded(codec, device);
    match op
    case Register => PutRequestText(scope, deviceEnc, endpoint, signature, auth, device)
    case Poll(id) => GetRequestText(scope, deviceEnc, id, endpoint, signature, auth)
  }

  /** getOperationId: one register or poll call. `timeout` is
      IOTC_SERVER_RESPONSE_TIMEOUT and `signature` the client signature
      line, both from the configuration header. */
  function GetOperationId(endpoint: seq<char>, scope: seq<char>, device: seq<char>, auth: seq<char>, signature: seq<char>,
                          timeout: nat, op: Operation, io: DpsIo, codec: Codec): (c: DpsCall)
    ensures 1 <= c.attempts <= MaxConnects
    // no connection: return 1 before anything is written
    ensures !Connected(io.connects) ==> c.result.Failed? && c.sent.None? && !c.stopped
    // what is written is the request and println's CRLF; it fit its buffer
    ensures c.sent.Some? ==>
      && Connected(io.connects)
      && var text := RequestText(endpoint, scope, device, auth, signature, op, codec);
         |text| < 1024 && c.sent.value == text + CrLf
    // once connected, the request is written exactly when it fits its
    // 1024-byte buffer, and the assert stops the call exactly when not
    ensures Connected(io.connects) ==>
      (c.sent.Some? <==> |RequestText(endpoint, scope, device, auth, signature, op, codec)| < 1024)
    ensures c.result.Faulted? <==>
      Connected(io.connects) && |RequestText(endpoint, scope, device, auth, signature, op, codec)| >= 1024
    ensures c.result.Faulted? ==> c.sent.None?
    // the client is stopped on every exit after the request is written
    ensures c.stopped <==> c.sent.Some?
    // a value only comes from an answered request, read from the captured body
    ensures c.result.Ok? ==>
      && c.sent.Some?
      && Answered(io.firstAvailable, timeout)
      && ExtractValue(CapturedBody(io.received), Marker(op)) == Some(c.result.value)
    ensures (c.sent.Some? && Answered(io.firstAvailable, timeout)
             && ExtractValue(CapturedBody(io.received), Marker(op)).Some?) ==> c.result.Ok?
  {
    ConnectSpec(io.connects);
    var attempts := ConnectAttempts(io.connects);
    if !Connected(io.connects) then DpsCall(Failed, attempts, None, false)
    else
      var text := RequestText(endpoint, scope, device, auth, signature, op, codec);
      if |text| >= 1024 then DpsCall(Faulted("request does not fit its 1024-byte buffer"), attempts, None, false)
      else
        var sent := Some(text + CrLf);
        if !Answered(io.firstAvailable, timeout) then DpsCall(Failed, attempts, sent, true)
        else
          match ExtractValue(CapturedBody(io.received), Marker(op))
          case None => DpsCall(Failed, attempts, sent, true)
          case Some(v) => DpsCall(Ok(v), attempts, sent, true)
  }

  /** A register call that connects, fits its request, is answered in
      time and receives headers without `{` followed by a body holding
      `{"operationId":"<v>"` yields `v`. */
  lemma RegisterYieldsOperationId(endpoint: seq<char>, scope: seq<char>, device: seq<char>, auth: seq<char>,
                                  signature: seq<char>, timeout: nat, io: DpsIo, codec: Codec,
                                  headers: seq<char>, v: seq<char>, rest: seq<char>)
    requires Connected(io.connects) && Answered(io.firstAvailable, timeout)
    requires |RequestText(endpoint, scope, device, auth, signature, Register, codec)| < 1024
    requires io.received == headers + (OperationIdMarker + v + "\"" + rest)
    requires '{' !in headers
    requires |v| > 0 && '"' !in v && '\0' !in v
    requires |OperationIdMarker + v + "\"" + rest| <= CaptureLimit
    ensures GetOperationId(endpoint, scope, device, auth, signature, timeout, Register, io, codec).result == Ok(v)
  {
    var body := OperationIdMarker + v + "\"" + rest;
    BodyCapturedWhole(headers, body);
    assert OccursAt(body, OperationIdMarker, 0);
    assert body[|OperationIdMarker|..|OperationIdMarker| + |v|] == v;
    ExtractFound(body, OperationIdMarker, 0, v);
  }

  /** Headers without `{` are dropped and a short body is kept whole. */
  lemma BodyCapturedWhole(headers: seq<char>, body: seq<char>)
    requires '{' !in headers && |body| > 0 && body[0] == '{' && |body| <= CaptureLimit
    ensures CapturedBody(headers + body) == body
  {
    var r := headers + body;
    assert r[..|headers|] == headers;
    FirstOfAt(r, '{', |headers|);
    assert r[|headers|..] == body;
  }

  // ---------------------------------------------------------------
  // getHubHostName

  /** The network during poll `i`; polls past the end of the list are
      never answered because no connection is made. */
  function IoAt(polls: seq<DpsIo>, i: nat): DpsIo
  {
    if i < |polls| then polls[i] else DpsIo([], None, [])
  }

  /** The poll loop from attempt `i` on, for any way `call` of making
      one call: poll, stop at the first call that does not return 1, at
      most five polls in all. */
  function PollCalls(call: (Operation, DpsIo) -> DpsCall, operationId: seq<char>, polls: seq<DpsIo>, i: nat)
    : (ps: seq<DpsCall>)
    requires i < 5
    ensures 1 <= |ps| <= 5 - i
    ensures forall j :: 0 <= j < |ps| ==> ps[j] == call(Poll(operationId), IoAt(polls, i + j))
    ensures forall j :: 0 <= j < |ps| - 1 ==> ps[j].result.Failed?
    ensures (exists j :: 0 <= j < |ps| && ps[j].result.Ok?) <==> ps[|ps| - 1].result.Ok?
    ensures |ps| < 5 - i ==> !ps[|ps| - 1].result.Failed?
    decreases 5 - i
  {
    var c := call(Poll(operationId), IoAt(polls, i));
    if !c.result.Failed? || i == 4 then [c]
    else [c] + PollCalls(call, operationId, polls, i + 1)
  }

  /** The outcome of getHubHostName and every getOperationId call it
      made, in order. */
  datatype HubLookup = HubLookup(result: Outcome<seq<char>>, calls: seq<DpsCall>)

  /** The retry logic of getHubHostName for a given header outcome and a
      given way `call(header, op, io)` of making one call. */
  function LookupWith(auth: Outcome<seq<char>>, call: (seq<char>, Operation, DpsIo) -> DpsCall,
                      register: DpsIo, polls: seq<DpsIo>): (h: HubLookup)
    // no header: return without any network call
    ensures !auth.Ok? ==> h.calls == [] && h.result == auth
    // otherwise the first call registers with that header
    ensures auth.Ok? ==> |h.calls| >= 1 && h.calls[0] == call(auth.value, Register, register)
    // polls follow only a successful register, at most five of them
    ensures |h.calls| <= 6
    ensures |h.calls| > 1 ==> h.calls[0].result.Ok?
    ensures |h.calls| == 1 ==> !h.calls[0].result.Ok? && h.result == h.calls[0].result
    // each poll asks for the operation the register call returned, and
    // polling stops at the first poll that does not return 1
    ensures forall j :: 1 <= j < |h.calls| ==>
      h.calls[j] == call(auth.value, Poll(h.calls[0].result.value), IoAt(polls, j - 1))
    ensures forall j :: 1 <= j < |h.calls| - 1 ==> h.calls[j].result.Failed?
    // fewer than five polls means the last one did not return 1
    ensures |h.calls| > 1 && |h.calls| < 6 ==> !h.calls[|h.calls| - 1].result.Failed?
    // the routine returns what its last call returned
    ensures auth.Ok? ==> h.result == h.calls[|h.calls| - 1].result
    // 0 exactly when the register call and some poll succeeded
    ensures h.result.Ok? <==>
      |h.calls| > 1 && h.calls[0].result.Ok? && exists j :: 1 <= j < |h.calls| && h.calls[j].result.Ok?
    ensures h.result.Ok? ==> h.result.value == h.calls[|h.calls| - 1].result.value
  {
    match auth
    case Failed => HubLookup(Failed, [])
    case Faulted(why) => HubLookup(Faulted(why), [])
    case Ok(header) =>
      var reg := call(header, Register, register);
      if !reg.result.Ok? then HubLookup(reg.result, [reg])
      else
        var ps := PollCalls((op, io) => call(header, op, io), reg.result.value, polls, 0);
        var calls := [reg] + ps;
        assert forall j :: 1 <= j < |calls| ==> calls[j] == ps[j - 1];
        assert (exists j :: 0 <= j < |ps| && ps[j].result.Ok?) ==> exists j :: 1 <= j < |calls| && calls[j].result.Ok? by {
          if j :| 0 <= j < |ps| && ps[j].result.Ok? {
            assert calls[j + 1] == ps[j];
          }
        }
        assert calls[|calls| - 1] == ps[|ps| - 1];
        HubLookup(ps[|ps| - 1].result, calls)
  }

  /** getHubHostName: sign with a 256-byte header buffer, register, then
      poll for the assigned hub. */
  function GetHubHostName(endpoint: seq<char>, scope: seq<char>, device: seq<char>, key: seq<char>, expires: nat,
                          signature: seq<char>, timeout: nat, register: DpsIo, polls: seq<DpsIo>, codec: Codec)
    : (h: HubLookup)
    ensures var auth := GetDpsAuthString(scope, device, key, expires, 256, codec);
      && (!auth.Ok? ==> h.calls == [] && h.result == auth)
      && (auth.Ok? ==>
            && |h.calls| >= 1
            && h.calls[0] == GetOperationId(endpoint, scope, device, auth.value, signature, timeout, Register, register, codec)
            && (|h.calls| > 1 ==> h.calls[0].result.Ok?)
            && forall j :: 1 <= j < |h.calls| ==>
                 h.calls[j] == GetOperationId(endpoint, scope, device, auth.value, signature, timeout,
                                              Poll(h.calls[0].result.value), IoAt(polls, j - 1), codec))
  {
    LookupWith(GetDpsAuthString(scope, device, key, expires, 256, codec),
               (a, op, io) => GetOperationId(endpoint, scope, device, a, signature, timeout, op, io, codec),
               register, polls)
  }

  /** What getHubHostName returns once the header is built: polling goes
      on while polls return 1, at most five times, and the routine
      returns what its last call returned, so 0 with the hub name exactly
      when the register call and the last poll succeeded. */
  lemma HubHostNameResult(endpoint: seq<char>, scope: seq<char>, device: seq<char>, key: seq<char>, expires: nat,
                          signature: seq<char>, timeout: nat, register: DpsIo, polls: seq<DpsIo>, codec: Codec)
    requires GetDpsAuthString(scope, device, key, expires, 256, codec).Ok?
    ensures var h := GetHubHostName(endpoint, scope, device, key, expires, signature, timeout, register, polls, codec);
      && 1 <= |h.calls| <= 6
      && (forall j :: 1 <= j < |h.calls| - 1 ==> h.calls[j].result.Failed?)
      && (|h.calls| > 1 && |h.calls| < 6 ==> !h.calls[|h.calls| - 1].result.Failed?)
      && h.result == h.calls[|h.calls| - 1].result
      && (h.result.Ok? <==> |h.calls| > 1 && h.calls[|h.calls| - 1].result.Ok?)
  {
  }
}
