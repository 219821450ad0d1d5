/** Shared access signature (SAS) tokens: what is signed, how the
    signature is made from a base64 key, and the token text the hub and
    the provisioning service read back. Both builders in the firmware
    (the hub password and the provisioning `authorization:` header)
    produce tokens of this one shape. */
module Sas {
  import opened CStrings
  import opened StringBuffer

  /** `keyName` is the `skn=` field, present only in the provisioning
      header. `expiry` is in seconds; the text carries it in milliseconds
      by appending three zeros. */
  datatype SasToken = SasToken(resource: seq<char>, signature: seq<char>, expiry: nat, keyName: Option<seq<char>>)

  const Scheme := "SharedAccessSignature sr="

  /** `%zu000`: the expiry in seconds followed by three zero digits. */
  function ExpiryMs(expiry: nat): seq<char>
  {
    Decimal(expiry) + "000"
  }

  /** The text that is signed: resource, newline, expiry in milliseconds. */
  function StringToSign(resource: seq<char>, expiry: nat): seq<char>
  {
    resource + "\n" + ExpiryMs(expiry)
  }

  /** The raw digest: the key buffer is base64-decoded and the text
      hashed with it, both with their results ignored. */
  function Digest(codec: Codec, key: seq<char>, toSign: seq<char>): seq<char>
  {
    var keyBytes := Applied(codec.base64Decode(key), key);
    Applied(codec.hmac(keyBytes, toSign), toSign)
  }

  /** The signature as it appears in the token: the digest base64-encoded
      and then URL-encoded; either step failing means no signature. */
  function Sign(codec: Codec, key: seq<char>, toSign: seq<char>): (sig: Option<seq<char>>)
    ensures sig.Some? <==>
      (codec.base64Encode(Digest(codec, key, toSign)).Some? &&
       codec.urlEncode(codec.base64Encode(Digest(codec, key, toSign)).value).Some?)
  {
    var digest := Digest(codec, key, toSign);
    match codec.base64Encode(digest)
    case None => None
    case Some(b64) => codec.urlEncode(b64)
  }

  /** The `&`-separated fields after the scheme. */
  function Fields(t: SasToken): seq<seq<char>>
  {
    [t.resource, "sig=" + t.signature, "se=" + ExpiryMs(t.expiry)]
      + (match t.keyName case None => [] case Some(k) => ["skn=" + k])
  }

  /** The token text. */
  function Serialize(t: SasToken): seq<char>
  {
    Scheme + Join(Fields(t), '&')
  }

  function StripPrefix(s: seq<char>, p: seq<char>): Option<seq<char>>
  {
    if p <= s then Some(s[|p|..]) else None
  }

  /** Reads `<digits>000` back as the expiry in seconds. */
  function ParseExpiryMs(s: seq<char>): Option<nat>
  {
    if |s| > 3 && s[|s| - 3..] == "000" && forall i :: 0 <= i < |s| - 3 ==> IsDigit(s[i])
    then Some(DecimalValue(s[..|s| - 3]))
    else None
  }

  /** Reads the `&`-separated fields of a token back. */
  function FromFields(f: seq<seq<char>>): Option<SasToken>
  {
    if |f| != 3 && |f| != 4 then None
    else
      var sig := StripPrefix(f[1], "sig=");
      var se := StripPrefix(f[2], "se=");
      var skn := if |f| == 4 then StripPrefix(f[3], "skn=") else Some([]);
      if sig.None? || se.None? || skn.None? then None
      else
        match ParseExpiryMs(se.value)
        case None => None
        case Some(e) => Some(SasToken(f[0], sig.value, e, if |f| == 4 then Some(skn.value) else None))
  }

  /** Reads a token back into its fields. */
  function ParseSasToken(s: seq<char>): Option<SasToken>
  {
    if Scheme <= s then FromFields(SplitOn(s[|Scheme|..], '&')) else None
  }

  /** No field of the token holds the `&` separator; URL-encoded text
      never does. */
  predicate Separable(t: SasToken)
  {
    && '&' !in t.resource
    && '&' !in t.signature
    && (t.keyName.Some? ==> '&' !in t.keyName.value)
  }

  lemma ExpiryMsRoundTrip(e: nat)
    ensures ParseExpiryMs(ExpiryMs(e)) == Some(e)
  {
    var s := ExpiryMs(e);
    assert s[..|s| - 3] == Decimal(e);
    assert s[|s| - 3..] == "000";
    DecimalRoundTrip(e);
  }

  lemma FieldsSeparable(t: SasToken)
    requires Separable(t)
    ensures forall i :: 0 <= i < |Fields(t)| ==> '&' !in Fields(t)[i]
  {
    var d := Decimal(t.expiry);
    assert forall j :: 0 <= j < |d| ==> d[j] != '&';
    assert Fields(t)[2] == "se=" + d + "000";
  }

  lemma FromFieldsOfFields(t: SasToken)
    ensures FromFields(Fields(t)) == Some(t)
  {
    var f := Fields(t);
    assert StripPrefix(f[1], "sig=") == Some(t.signature) by {
      assert f[1][4..] == t.signature;
    }
    assert StripPrefix(f[2], "se=") == Some(ExpiryMs(t.expiry)) by {
      assert f[2][3..] == ExpiryMs(t.expiry);
    }
    ExpiryMsRoundTrip(t.expiry);
    if t.keyName.Some? {
      assert StripPrefix(f[3], "skn=") == Some(t.keyName.value) by {
        assert f[3][4..] == t.keyName.value;
      }
    }
  }

  /** The token text of a hub password, field by field. */
  lemma SerializeWithoutKeyName(resource: seq<char>, sig: seq<char>, expires: nat)
    ensures Serialize(SasToken(resource, sig, expires, None))
            == Scheme + resource + "&sig=" + sig + "&se=" + Decimal(expires) + "000"
  {
    var f := Fields(SasToken(resource, sig, expires, None));
    assert f == [resource, "sig=" + sig, "se=" + ExpiryMs(expires)];
    assert Join(f[2..], '&') == "se=" + ExpiryMs(expires);
    assert Join(f[1..], '&') == "sig=" + sig + "&" + "se=" + ExpiryMs(expires);
    assert Join(f, '&') == resource + "&" + "sig=" + sig + "&" + "se=" + ExpiryMs(expires);
  }

  /** The token text with a key name, field by field. */
  lemma SerializeWithKeyName(resource: seq<char>, sig: seq<char>, expires: nat, name: seq<char>)
    ensures Serialize(SasToken(resource, sig, expires, Some(name)))
            == Serialize(SasToken(resource, sig, expires, None)) + "&skn=" + name
  {
    var f := Fields(SasToken(resource, sig, expires, Some(name)));
    var g := Fields(SasToken(resource, sig, expires, None));
    assert f == g + ["skn=" + name];
    JoinSnoc(g, "skn=" + name, '&');
    assert "&skn=" + name == ['&'] + ("skn=" + name);
  }

  /** Every token the firmware emits reads back as the resource,
      signature, expiry and key name it was built from. */
  lemma ParseSerialize(t: SasToken)
    requires Separable(t)
    ensures ParseSasToken(Serialize(t)) == Some(t)
  {
    var f := Fields(t);
    var s := Serialize(t);
    assert s[|Scheme|..] == Join(f, '&');
    FieldsSeparable(t);
    SplitJoin(f, '&');
    FromFieldsOfFields(t);
  }
}
