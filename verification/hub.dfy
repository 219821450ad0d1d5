/** The identity half of ensureHubConnected (centralduino.cpp): after
    the provisioning service names the assigned hub, a connection string
    is formatted from the hub, the device id and the key, and parsed back
    into the host name, client id, username and password the MQTT client
    connects with. */
module Hub {
  import opened CStrings
  import opened StringBuffer
  import opened ConnectionString

  /** The connection string formatted into `cstr[CONN_STR_MAX_LEN]`;
      the assert after snprintf demands it fit. */
  function ConnectionText(host: seq<char>, device: seq<char>, key: seq<char>, connStrMax: nat): (r: Outcome<seq<char>>)
    ensures r.Ok? <==> |Build(host, device, key)| < connStrMax
    ensures r.Ok? ==> r.value == HostNameMarker + host + DeviceIdMarker + device + KeyMarker + key
    ensures !r.Failed?
  {
    var cs := Build(host, device, key);
    if |cs| < connStrMax then Ok(SnprintfWritten(cs, connStrMax))
    else Faulted("connection string does not fit CONN_STR_MAX_LEN")
  }

  /** What the four buffers of ensureHubConnected hold before the
      credential routine fills them: default-constructed, with NULL data.
      The corrected routine reads them on no path that connects, and the
      one as written reaches undefined behaviour wherever it would. */
  const Unfilled := Credentials([], [], [], [])

  /** ensureHubConnected as written either reaches a defined end, or
      passes a NULL buffer to a `%s` trace and to the MQTT connect. */
  datatype Attempt = Defined(outcome: Outcome<Credentials>) | Undefined(reason: string)

  /** ensureHubConnected as written, up to the MQTT connect. `lookup` is
      what getHubHostName returned. The return code of the credential
      routine is ignored, so when it returns 1 the username and password
      buffers are still NULL, and they are traced with `%s` and passed to
      connect. */
  function EnsureHubIdentityAsWritten(lookup: Outcome<seq<char>>, device: seq<char>, key: seq<char>, connStrMax: nat,
                                      expires: nat, codec: Codec): (r: Attempt)
    ensures lookup.Failed? ==> r == Defined(Failed)
    ensures r.Defined? && r.outcome.Ok? ==> lookup.Ok? && ConnectionText(lookup.value, device, key, connStrMax).Ok?
    ensures r.Undefined? <==>
      && lookup.Ok?
      && var cs := ConnectionText(lookup.value, device, key, connStrMax);
      && cs.Ok?
      && DeriveCredentialsAsWritten(cs.value, Unfilled, expires, codec).result.Failed?
  {
    match lookup
    case Failed => Defined(Failed)
    case Faulted(why) => Defined(Faulted(why))
    case Ok(host) =>
      match ConnectionText(host, device, key, connStrMax)
      case Ok(cs) =>
        var d := DeriveCredentialsAsWritten(cs, Unfilled, expires, codec);
        (match d.result
         case Failed => Undefined("NULL username and password traced with %s and passed to connect")
         case Faulted(why) => Defined(Faulted(why))
         case Ok(_) => Defined(Ok(d.buffers)))
      case Failed => Defined(Failed)
      case Faulted(why) => Defined(Faulted(why))
  }

  /** ensureHubConnected with the credential routine's return code
      checked: no connection is attempted unless it returned 0. */
  function EnsureHubIdentity(lookup: Outcome<seq<char>>, device: seq<char>, key: seq<char>, connStrMax: nat,
                             expires: nat, codec: Codec): (r: Outcome<Credentials>)
    ensures lookup.Failed? ==> r.Failed?
    ensures r.Ok? ==>
      && lookup.Ok?
      && var cs := ConnectionText(lookup.value, device, key, connStrMax);
      && cs.Ok?
      && r == DeriveCredentials(cs.value, Unfilled, expires, codec).result
  {
    match lookup
    case Failed => Failed
    case Faulted(why) => Faulted(why)
    case Ok(host) =>
      match ConnectionText(host, device, key, connStrMax)
      case Ok(cs) => DeriveCredentials(cs, Unfilled, expires, codec).result
      case Failed => Failed
      case Faulted(why) => Faulted(why)
  }

  /** The fields the provisioning service and the configuration supply
      contain no marker that would cut them short when parsed back. */
  predicate Parsable(host: seq<char>, device: seq<char>)
  {
    Absent(host, DeviceIdMarker) && Absent(host, KeyMarker) && Absent(device, KeyMarker)
  }

  /** The identity the device connects with names the hub the service
      assigned and the configured device, and its password is the hub
      password signed with the configured key. */
  lemma IdentityOfAssignedHub(host: seq<char>, device: seq<char>, key: seq<char>, connStrMax: nat,
                              expires: nat, codec: Codec)
    requires Parsable(host, device)
    requires |Build(host, device, key)| < connStrMax
    requires HubPassword(codec, host, device, key, expires).Ok?
    ensures EnsureHubIdentity(Ok(host), device, key, connStrMax, expires, codec)
            == Ok(Credentials(host, device, host + "/" + device + "/api-version=2016-11-14",
                              HubPassword(codec, host, device, key, expires).value))
    ensures EnsureHubIdentityAsWritten(Ok(host), device, key, connStrMax, expires, codec)
            == Defined(EnsureHubIdentity(Ok(host), device, key, connStrMax, expires, codec))
  {
    DeriveFromBuilt(host, device, key, Unfilled, expires, codec);
  }

  /** Wherever the routine as written is defined, it agrees with the
      corrected one, except that it may stop at an assert where the
      corrected one returns 1. */
  lemma IdentityAgrees(lookup: Outcome<seq<char>>, device: seq<char>, key: seq<char>, connStrMax: nat,
                       expires: nat, codec: Codec)
    ensures var w := EnsureHubIdentityAsWritten(lookup, device, key, connStrMax, expires, codec);
      w.Defined? ==>
        w.outcome == EnsureHubIdentity(lookup, device, key, connStrMax, expires, codec) || w.outcome.Faulted?
  {
  }

  /** When the signature cannot be encoded, the credential routine
      returns 1 having filled only the host name and device id; the
      routine as written goes on to trace the still NULL username and
      password with `%s` and to connect with them, which is undefined.
      The corrected routine does not connect. */
  lemma SigningFailureConnects(host: seq<char>, device: seq<char>, key: seq<char>, connStrMax: nat,
                               expires: nat, codec: Codec)
    requires Parsable(host, device)
    requires |Build(host, device, key)| < connStrMax
    requires HubPassword(codec, host, device, key, expires).Failed?
    ensures EnsureHubIdentityAsWritten(Ok(host), device, key, connStrMax, expires, codec).Undefined?
    ensures EnsureHubIdentity(Ok(host), device, key, connStrMax, expires, codec) == Failed
  {
    var cs := Build(host, device, key);
    assert ConnectionText(host, device, key, connStrMax) == Ok(cs);
    LocateBuild(host, device, key);
    DeriveFromBuilt(host, device, key, Unfilled, expires, codec);
    assert DeriveCredentials(cs, Unfilled, expires, codec).result.Failed?;
    DeriveAgrees(cs, Unfilled, expires, codec);
    assert DeriveCredentialsAsWritten(cs, Unfilled, expires, codec).result.Failed?;
  }

  /** A connection string too long for its buffer stops the device at
      the assert, whatever the lookup returned. */
  lemma ConnectionStringTooLong(host: seq<char>, device: seq<char>, key: seq<char>, connStrMax: nat,
                                expires: nat, codec: Codec)
    requires |Build(host, device, key)| >= connStrMax
    ensures EnsureHubIdentityAsWritten(Ok(host), device, key, connStrMax, expires, codec) == Defined(Faulted("connection string does not fit CONN_STR_MAX_LEN"))
    ensures EnsureHubIdentity(Ok(host), device, key, connStrMax, expires, codec).Faulted?
  {
  }
}
