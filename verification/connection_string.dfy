/** The hub connection string and the MQTT identity derived from it
    (CentralduinoClass::getUsernameAndPasswordFromConnectionString). */
module ConnectionString {
  import opened CStrings
  import opened StringBuffer
  import opened Sas

  // The three markers, as they appear in the format string that builds
  // the connection string; their lengths are the *_LENGTH constants.
  const HostNameMarker := "HostName="
  const DeviceIdMarker := ";DeviceId="
  const KeyMarker := ";SharedAccessKey="

  const UsernameTemplate := "%s/%s/api-version=2016-11-14"

  /** The connection string ensureHubConnected formats from the assigned
      hub, the device id and the key. */
  function Build(host: seq<char>, device: seq<char>, key: seq<char>): seq<char>
  {
    HostNameMarker + host + DeviceIdMarker + device + KeyMarker + key
  }

  /** Offsets of the `;DeviceId=` and `;SharedAccessKey=` markers. */
  datatype FieldOffsets = FieldOffsets(deviceIndex: nat, keyIndex: nat)

  /** Hub identity handed to the MQTT client. `username` and `password`
      are the C strings the client is given. */
  datatype Credentials = Credentials(hostName: seq<char>, deviceId: seq<char>, username: seq<char>, password: seq<char>)

  /** The routine's return code together with what its four output
      buffers hold afterwards (`out` is what they held before). */
  datatype Derivation = Derivation(result: Outcome<Credentials>, buffers: Credentials)

  lemma MarkerAfterLead(cs: seq<char>, m: seq<char>, i: nat)
    requires HostNameMarker <= cs
    requires |m| > 0 && m[0] == ';' && OccursAt(cs, m, i)
    ensures i >= |HostNameMarker|
  {
  }

  /** The three marker searches, exactly as the routine makes them: the
      string must start with `HostName=`, and the first `;DeviceId=` and
      the first `;SharedAccessKey=` anywhere in it are taken. Nothing
      relates the two offsets. */
  function LocateFields(cs: seq<char>): (r: Option<FieldOffsets>)
    ensures r.Some? ==>
      && |HostNameMarker| <= r.value.deviceIndex
      && r.value.deviceIndex + |DeviceIdMarker| <= |cs|
      && r.value.keyIndex + |KeyMarker| <= |cs|
  {
    var hostIndex := IndexOf(cs, HostNameMarker, 0);
    assert hostIndex == 0 <==> HostNameMarker <= cs by {
      if HostNameMarker <= cs {
        assert OccursAt(cs, HostNameMarker, 0);
      }
    }
    if hostIndex != 0 then None
    else
      var deviceIndex := IndexOf(cs, DeviceIdMarker, 0);
      if deviceIndex == -1 then None
      else
        var keyIndex := IndexOf(cs, KeyMarker, 0);
        if keyIndex == -1 then None
        else
          MarkerAfterLead(cs, DeviceIdMarker, deviceIndex);
          Some(FieldOffsets(deviceIndex, keyIndex))
  }

  /** The searches succeed exactly when the string starts with
      `HostName=` and holds both other markers, and they find the first
      occurrence of each. */
  lemma LocateFieldsSpec(cs: seq<char>)
    ensures LocateFields(cs).None? <==>
      !(HostNameMarker <= cs) || Absent(cs, DeviceIdMarker) || Absent(cs, KeyMarker)
    ensures LocateFields(cs).Some? ==>
      && First(cs, DeviceIdMarker, LocateFields(cs).value.deviceIndex)
      && First(cs, KeyMarker, LocateFields(cs).value.keyIndex)
  {
    IndexOfSpec(cs, HostNameMarker, 0);
    IndexOfSpec(cs, DeviceIdMarker, 0);
    IndexOfSpec(cs, KeyMarker, 0);
  }

  /** The resource a hub password grants: `<host>/devices/<device>` with
      both names URL-encoded and the slashes written as `%2F`. */
  function HubResource(codec: Codec, host: seq<char>, device: seq<char>): seq<char>
  {
    UrlEncoded(codec, host) + "%2Fdevices%2F" + UrlEncoded(codec, device)
  }

  function UsernameText(host: seq<char>, device: seq<char>): seq<char>
  {
    host + "/" + device + "/api-version=2016-11-14"
  }

  /** The username buffer is sized from the template with its two `%s`
      removed plus one spare byte, which is the terminator's: the
      formatted username always fits. */
  lemma UsernameBufferFits(host: seq<char>, device: seq<char>)
    ensures |UsernameTemplate| - 3 + |host| + |device| == |UsernameText(host, device)| + 1
  {
  }

  /** The username as snprintf leaves it in that buffer: never cut off. */
  function Username(host: seq<char>, device: seq<char>): (u: seq<char>)
    ensures u == host + "/" + device + "/api-version=2016-11-14"
  {
    UsernameBufferFits(host, device);
    SnprintfWritten(UsernameText(host, device), |UsernameTemplate| - 3 + |host| + |device|)
  }

  /** The size of the string-to-sign buffer: the encoded host plus 128. */
  function SignBufferSize(codec: Codec, host: seq<char>): nat
  {
    |UrlEncoded(codec, host)| + 128
  }

  /** The string to sign fits the buffer sized from the encoded host. */
  predicate SignedTextFits(codec: Codec, host: seq<char>, device: seq<char>, expires: nat)
  {
    |StringToSign(HubResource(codec, host, device), expires)| < SignBufferSize(codec, host)
  }

  /** What the string-to-sign buffer holds after snprintf into `cap`
      bytes and `setLength` to the length snprintf reports: the text when
      it fits; when it is exactly `cap` long, the text without its last
      character followed by snprintf's terminator. */
  function SignedBytes(text: seq<char>, cap: nat): (b: seq<char>)
    requires 0 < cap && |text| <= cap
    ensures |b| == |text|
  {
    if |text| < cap then text else SnprintfWritten(text, cap) + ['\0']
  }

  /** The password half of the routine (its lines after the field
      slicing): sign `<resource>\n<expiry>000` and format the token. The
      string to sign is formatted into a buffer of SignBufferSize bytes
      with no check: a text of exactly that length is cut short by one
      character before it is signed, and a longer one moves the buffer's
      length past its allocation. */
  function HubPassword(codec: Codec, host: seq<char>, device: seq<char>, key: seq<char>, expires: nat)
    : (r: Outcome<seq<char>>)
    ensures var resource := HubResource(codec, host, device);
      var toSign := StringToSign(resource, expires);
      var cap := SignBufferSize(codec, host);
      && (|toSign| > cap ==> r.Faulted?)
      && (|toSign| <= cap ==>
            var sig := Sign(codec, key, SignedBytes(toSign, cap));
            && (r.Failed? <==> sig.None?)
            && (r.Faulted? <==> sig.Some? && |Serialize(SasToken(resource, sig.value, expires, None))| >= 512)
            && (r.Ok? ==> r.value == Serialize(SasToken(resource, sig.value, expires, None)) && |r.value| < 512))
  {
    var hostEnc := UrlEncoded(codec, host);
    // `%s%s%s` of the encoded host, `%2Fdevices%2F` and the encoded device
    var resource := hostEnc + "%2Fdevices%2F" + UrlEncoded(codec, device);
    var toSign := resource + "\n" + Decimal(expires) + "000";
    assert toSign == StringToSign(HubResource(codec, host, device), expires);
    var cap := |hostEnc| + 128;
    if |toSign| > cap then
      Faulted("setLength past the string to sign's buffer")
    else
      var sig := Sign(codec, key, SignedBytes(toSign, cap));
      if sig.None? then Failed
      else
        var password := "SharedAccessSignature sr=" + resource + "&sig=" + sig.value + "&se=" + Decimal(expires) + "000";
        SerializeWithoutKeyName(resource, sig.value, expires);
        if |password| >= 512 then Faulted("password does not fit its 512-byte buffer")
        else Ok(password)
  }

  /** A string to sign that fits is signed whole. */
  lemma SignedWhole(codec: Codec, host: seq<char>, device: seq<char>, expires: nat)
    requires SignedTextFits(codec, host, device, expires)
    ensures var toSign := StringToSign(HubResource(codec, host, device), expires);
      SignedBytes(toSign, SignBufferSize(codec, host)) == toSign
  {
  }

  /** A string to sign exactly as long as its buffer is signed with its
      last digit, a `0` of the milliseconds, replaced by the terminator,
      while the password still carries the whole expiry. */
  lemma SignedCutShort(codec: Codec, host: seq<char>, device: seq<char>, expires: nat)
    requires |StringToSign(HubResource(codec, host, device), expires)| == SignBufferSize(codec, host)
    ensures var toSign := StringToSign(HubResource(codec, host, device), expires);
      var b := SignedBytes(toSign, SignBufferSize(codec, host));
      && b != toSign
      && b[..|b| - 1] == toSign[..|toSign| - 1]
      && toSign[|toSign| - 1] == '0' && b[|b| - 1] == '\0'
  {
  }

  /** getUsernameAndPasswordFromConnectionString, with the field order
      checked: a `;SharedAccessKey=` before `;DeviceId=` is rejected like
      a missing marker. */
  function DeriveCredentials(cs: seq<char>, out: Credentials, expires: nat, codec: Codec): (r: Derivation)
    // A missing or misplaced marker: return 1, outputs untouched.
    ensures LocateFields(cs).None? || !Ordered(LocateFields(cs).value)
            ==> r == Derivation(Failed, out)
    // Otherwise the host name and device id are slices of the input.
    ensures LocateFields(cs).Some? && Ordered(LocateFields(cs).value) ==>
      var o := LocateFields(cs).value;
      var host := cs[|HostNameMarker|..o.deviceIndex];
      var device := cs[o.deviceIndex + |DeviceIdMarker|..o.keyIndex];
      && r.buffers.hostName == host
      && r.buffers.deviceId == device
      // and the password is signed with the key field
      && var p := HubPassword(codec, host, device, cs[o.keyIndex + |KeyMarker|..], expires);
         && (p.Failed? ==> r.result.Failed?)
         && (p.Faulted? ==> r.result.Faulted?)
         && (p.Ok? ==> r.result.Ok? && r.result.value.password == p.value)
    // A signature that cannot be encoded: return 1, no username or password.
    ensures r.result.Failed? ==> r.buffers.username == out.username && r.buffers.password == out.password
    ensures r.result.Ok? ==>
      && r.buffers == r.result.value
      && r.buffers.username == r.buffers.hostName + "/" + r.buffers.deviceId + "/api-version=2016-11-14"
  {
    match LocateFields(cs)
    case None => Derivation(Failed, out)
    case Some(o) =>
      if !Ordered(o) then Derivation(Failed, out)
      else
        var host := cs[|HostNameMarker|..o.deviceIndex];
        var device := cs[o.deviceIndex + |DeviceIdMarker|..o.keyIndex];
        DeriveFromFields(host, device, cs[o.keyIndex + |KeyMarker|..], out, expires, codec)
  }

  /** The routine after the fields are sliced out: the host name and
      device id buffers are filled, then the password is signed and the
      username formatted. */
  function DeriveFromFields(host: seq<char>, device: seq<char>, key: seq<char>, out: Credentials, expires: nat, codec: Codec)
    : (r: Derivation)
    ensures r.buffers.hostName == host && r.buffers.deviceId == device
    ensures var p := HubPassword(codec, host, device, key, expires);
      && (p.Failed? ==> r.result.Failed?)
      && (p.Faulted? ==> r.result.Faulted?)
      && (p.Ok? ==> r.result.Ok? && r.result.value.password == p.value)
    ensures r.result.Failed? ==> r.buffers.username == out.username && r.buffers.password == out.password
    ensures r.result.Ok? ==>
      && r.buffers == r.result.value
      && r.buffers.username == host + "/" + device + "/api-version=2016-11-14"
  {
    var named := out.(hostName := host, deviceId := device);
    match HubPassword(codec, host, device, key, expires)
    case Failed => Derivation(Failed, named)
    case Faulted(why) => Derivation(Faulted(why), named)
    case Ok(password) =>
      var c := Credentials(host, device, Username(host, device), password);
      Derivation(Ok(c), c)
  }

  /** The device id field starts no earlier than where the key field's
      marker is found. */
  predicate Ordered(o: FieldOffsets)
  {
    o.deviceIndex + |DeviceIdMarker| <= o.keyIndex
  }

  // ---------------------------------------------------------------
  // Round trip with the string ensureHubConnected builds

  /** A marker of the connection string: `;` then text without `;`. */
  predicate IsMarker(m: seq<char>)
  {
    |m| > 1 && m[0] == ';' && ';' !in m[1..]
  }

  /** No marker starts in `HostName=<h>` when `h` does not hold it and a
      `;` follows. */
  lemma HeadClear(h: seq<char>, rest: seq<char>, m: seq<char>)
    requires IsMarker(m) && Absent(h, m)
    requires |rest| > 0 && rest[0] == ';'
    ensures forall p :: 0 <= p < |HostNameMarker| + |h| ==> !OccursAt(HostNameMarker + h + rest, m, p)
  {
    var s := HostNameMarker + h + rest;
    assert s[..|HostNameMarker|] == HostNameMarker;
    NoneStartsInPlain(s, m, 0, |HostNameMarker|);
    assert s[|HostNameMarker|..|HostNameMarker| + |h|] == h;
    NoneStartsIn(s, m, |HostNameMarker|, |HostNameMarker| + |h|);
  }

  /** Extends a clear prefix past another marker `m1` and the field text
      `x` after it, when `m` does not occur in `x`. */
  lemma MarkerClear(pre: seq<char>, m1: seq<char>, x: seq<char>, rest: seq<char>, m: seq<char>)
    requires IsMarker(m) && IsMarker(m1) && m[1] != m1[1] && Absent(x, m)
    requires |rest| > 0 && rest[0] == ';'
    requires forall p :: 0 <= p < |pre| ==> !OccursAt(pre + m1 + x + rest, m, p)
    ensures forall p :: 0 <= p < |pre| + |m1| + |x| ==> !OccursAt(pre + m1 + x + rest, m, p)
  {
    var s := pre + m1 + x + rest;
    var b := |pre|;
    var c := b + |m1|;
    assert s[b..c] == m1;
    assert !OccursAt(s, m, b) by {
      assert s[b + 1] == m1[1];
    }
    assert s[b + 1..c] == m1[1..];
    NoneStartsInPlain(s, m, b + 1, c);
    assert s[c..c + |x|] == x;
    NoneStartsIn(s, m, c, c + |x|);
  }

  lemma DeviceMarkerIsFirstAt(h: seq<char>, d: seq<char>, k: seq<char>)
    requires Absent(h, DeviceIdMarker)
    ensures First(Build(h, d, k), DeviceIdMarker, |HostNameMarker| + |h|)
  {
    var rest := DeviceIdMarker + d + KeyMarker + k;
    assert Build(h, d, k) == HostNameMarker + h + rest;
    HeadClear(h, rest, DeviceIdMarker);
  }

  lemma KeyMarkerIsFirstAt(h: seq<char>, d: seq<char>, k: seq<char>)
    requires Absent(h, KeyMarker) && Absent(d, KeyMarker)
    ensures First(Build(h, d, k), KeyMarker, |HostNameMarker| + |h| + |DeviceIdMarker| + |d|)
  {
    var pre := HostNameMarker + h;
    var rest := KeyMarker + k;
    var s := Build(h, d, k);
    assert s == pre + DeviceIdMarker + d + rest;
    assert s == HostNameMarker + h + (DeviceIdMarker + d + rest);
    HeadClear(h, DeviceIdMarker + d + rest, KeyMarker);
    MarkerClear(pre, DeviceIdMarker, d, rest, KeyMarker);
  }

  /** Parsing the string ensureHubConnected builds finds the three fields
      it was built from, provided the host name holds neither later
      marker and the device id holds no `;SharedAccessKey=`. */
  lemma LocateBuild(h: seq<char>, d: seq<char>, k: seq<char>)
    requires Absent(h, DeviceIdMarker) && Absent(h, KeyMarker) && Absent(d, KeyMarker)
    ensures LocateFields(Build(h, d, k))
            == Some(FieldOffsets(|HostNameMarker| + |h|, |HostNameMarker| + |h| + |DeviceIdMarker| + |d|))
  {
    DeviceMarkerIsFirstAt(h, d, k);
    KeyMarkerIsFirstAt(h, d, k);
    BuildStartsWithHostName(h, d, k);
    LocateFirst(Build(h, d, k), |HostNameMarker| + |h|, |HostNameMarker| + |h| + |DeviceIdMarker| + |d|);
  }

  lemma BuildStartsWithHostName(h: seq<char>, d: seq<char>, k: seq<char>)
    ensures HostNameMarker <= Build(h, d, k)
  {
    assert Build(h, d, k) == HostNameMarker + (h + DeviceIdMarker + d + KeyMarker + k);
  }

  /** The searches report the first occurrences when the string starts
      with `HostName=`. */
  lemma LocateFirst(cs: seq<char>, deviceIndex: nat, keyIndex: nat)
    requires HostNameMarker <= cs
    requires First(cs, DeviceIdMarker, deviceIndex) && First(cs, KeyMarker, keyIndex)
    ensures LocateFields(cs) == Some(FieldOffsets(deviceIndex, keyIndex))
  {
    assert OccursAt(cs, HostNameMarker, 0);
    IndexOfIsFirst(cs, HostNameMarker, 0);
    IndexOfIsFirst(cs, DeviceIdMarker, deviceIndex);
    IndexOfIsFirst(cs, KeyMarker, keyIndex);
  }

  lemma BuildSlices(h: seq<char>, d: seq<char>, k: seq<char>)
    ensures var s := Build(h, d, k);
      var b := |HostNameMarker| + |h|;
      var e := b + |DeviceIdMarker| + |d|;
      && s[|HostNameMarker|..b] == h
      && s[b + |DeviceIdMarker|..e] == d
      && s[e + |KeyMarker|..] == k
  {
  }

  /** The identity derived from a built connection string names the host
      and device it was built from and is signed with its key. */
  lemma DeriveFromBuilt(h: seq<char>, d: seq<char>, k: seq<char>, out: Credentials, expires: nat, codec: Codec)
    requires Absent(h, DeviceIdMarker) && Absent(h, KeyMarker) && Absent(d, KeyMarker)
    ensures var r := DeriveCredentials(Build(h, d, k), out, expires, codec);
      && r.buffers.hostName == h
      && r.buffers.deviceId == d
      && (HubPassword(codec, h, d, k, expires).Ok? ==>
            r.result == Ok(Credentials(h, d, h + "/" + d + "/api-version=2016-11-14", HubPassword(codec, h, d, k, expires).value)))
      && (HubPassword(codec, h, d, k, expires).Failed? ==> r.result.Failed?)
  {
    LocateBuild(h, d, k);
    BuildSlices(h, d, k);
  }

  /** The password's `sr=` and `se=` fields read back as the resource and
      expiry that were signed, and its `sig=` field is that signature. */
  lemma PasswordSignsItsFields(codec: Codec, host: seq<char>, device: seq<char>, key: seq<char>, expires: nat)
    requires HubPassword(codec, host, device, key, expires).Ok?
    requires SignedTextFits(codec, host, device, expires)
    requires '&' !in HubResource(codec, host, device)
    requires var sig := Sign(codec, key, StringToSign(HubResource(codec, host, device), expires));
      sig.Some? && '&' !in sig.value
    ensures var t := ParseSasToken(HubPassword(codec, host, device, key, expires).value);
      && t.Some?
      && t.value.resource == HubResource(codec, host, device)
      && t.value.expiry == expires
      && Sign(codec, key, StringToSign(t.value.resource, t.value.expiry)) == Some(t.value.signature)
  {
    var resource := HubResource(codec, host, device);
    var sig := Sign(codec, key, StringToSign(resource, expires));
    SignedWhole(codec, host, device, expires);
    ParseSerialize(SasToken(resource, sig.value, expires, None));
  }

  // ---------------------------------------------------------------
  // Fields in another order

  /** The routine as written: after the three searches the host name
      buffer is filled, then the device id is copied with length
      `keyIndex - (deviceIndex + 10)`. Nothing checks that this length is
      non-negative; when `;SharedAccessKey=` comes first it is negative
      and is handed to StringBuffer::initialize as a size. */
  function DeriveCredentialsAsWritten(cs: seq<char>, out: Credentials, expires: nat, codec: Codec): (r: Derivation)
    ensures LocateFields(cs).None? ==> r == Derivation(Failed, out)
    ensures LocateFields(cs).Some? ==>
      var o := LocateFields(cs).value;
      && r.buffers.hostName == cs[|HostNameMarker|..o.deviceIndex]
      && (o.keyIndex < o.deviceIndex + |DeviceIdMarker| ==> r.result.Faulted? && r.buffers.deviceId == out.deviceId)
    ensures r.result.Ok? ==>
      && r.buffers == r.result.value
      && r.buffers.username == r.buffers.hostName + "/" + r.buffers.deviceId + "/api-version=2016-11-14"
  {
    match LocateFields(cs)
    case None => Derivation(Failed, out)
    case Some(o) =>
      var host := cs[|HostNameMarker|..o.deviceIndex];
      var deviceLength := o.keyIndex - (o.deviceIndex + |DeviceIdMarker|);
      if deviceLength < 0 then
        Derivation(Faulted("negative device id length"), out.(hostName := host))
      else
        var deviceStart := o.deviceIndex + |DeviceIdMarker|;
        var device := cs[deviceStart..deviceStart + deviceLength];
        DeriveFromFields(host, device, cs[o.keyIndex + |KeyMarker|..], out, expires, codec)
  }

  /** The routine as written and the corrected one differ only on a
      string whose key marker comes before its device marker, where the
      one as written breaks. */
  lemma DeriveAgrees(cs: seq<char>, out: Credentials, expires: nat, codec: Codec)
    ensures var w := DeriveCredentialsAsWritten(cs, out, expires, codec);
      w == DeriveCredentials(cs, out, expires, codec)
      || (w.result.Faulted? && LocateFields(cs).Some? && !Ordered(LocateFields(cs).value))
  {
  }

  /** A connection string with the key field before the device id. */
  function BuildReordered(host: seq<char>, device: seq<char>, key: seq<char>): seq<char>
  {
    HostNameMarker + host + KeyMarker + key + DeviceIdMarker + device
  }

  lemma KeyMarkerFirstInReordered(h: seq<char>, d: seq<char>, k: seq<char>)
    requires Absent(h, KeyMarker)
    ensures First(BuildReordered(h, d, k), KeyMarker, |HostNameMarker| + |h|)
  {
    var rest := KeyMarker + k + DeviceIdMarker + d;
    assert BuildReordered(h, d, k) == HostNameMarker + h + rest;
    HeadClear(h, rest, KeyMarker);
  }

  lemma DeviceMarkerFirstInReordered(h: seq<char>, d: seq<char>, k: seq<char>)
    requires Absent(h, DeviceIdMarker) && Absent(k, DeviceIdMarker)
    ensures First(BuildReordered(h, d, k), DeviceIdMarker, |HostNameMarker| + |h| + |KeyMarker| + |k|)
  {
    var pre := HostNameMarker + h;
    var rest := DeviceIdMarker + d;
    var s := BuildReordered(h, d, k);
    assert s == pre + KeyMarker + k + rest;
    assert s == HostNameMarker + h + (KeyMarker + k + rest);
    HeadClear(h, KeyMarker + k + rest, DeviceIdMarker);
    MarkerClear(pre, KeyMarker, k, rest, DeviceIdMarker);
  }

  lemma ReorderedStartsWithHostName(h: seq<char>, d: seq<char>, k: seq<char>)
    ensures HostNameMarker <= BuildReordered(h, d, k)
  {
    assert BuildReordered(h, d, k) == HostNameMarker + (h + KeyMarker + k + DeviceIdMarker + d);
  }

  lemma LocateReordered(h: seq<char>, d: seq<char>, k: seq<char>)
    requires Absent(h, DeviceIdMarker) && Absent(h, KeyMarker) && Absent(k, DeviceIdMarker)
    ensures LocateFields(BuildReordered(h, d, k))
            == Some(FieldOffsets(|HostNameMarker| + |h| + |KeyMarker| + |k|, |HostNameMarker| + |h|))
  {
    KeyMarkerFirstInReordered(h, d, k);
    DeviceMarkerFirstInReordered(h, d, k);
    ReorderedStartsWithHostName(h, d, k);
    LocateFirst(BuildReordered(h, d, k), |HostNameMarker| + |h| + |KeyMarker| + |k|, |HostNameMarker| + |h|);
  }

  /** Every marker-clean string with the key field first passes all
      three searches, then breaks the routine as written, while the
      corrected routine returns 1 with its outputs untouched. */
  lemma ReorderedFields(h: seq<char>, d: seq<char>, k: seq<char>, out: Credentials, expires: nat, codec: Codec)
    requires Absent(h, DeviceIdMarker) && Absent(h, KeyMarker) && Absent(k, DeviceIdMarker)
    ensures var cs := BuildReordered(h, d, k);
      && LocateFields(cs).Some?
      && DeriveCredentialsAsWritten(cs, out, expires, codec).result.Faulted?
      && DeriveCredentials(cs, out, expires, codec) == Derivation(Failed, out)
  {
    LocateReordered(h, d, k);
  }
}
