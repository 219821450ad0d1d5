/** Direct methods over MQTT (centralduino.cpp): the topic of an incoming
    message is cut into tokens with strtok, a `$iothub/methods/POST/...`
    topic is handed to the method registry, and the registered callback
    is answered on `$iothub/methods/res/200/?$rid=<rid>`.

    Each routine comes twice: as written, where a NULL token, an empty
    registry slot or an over-long request id reach code with undefined
    behaviour (`Undefined`), and corrected, which never does. */
module DirectMethods {
  import opened CStrings

  // ---------------------------------------------------------------
  // strtok with a one-character delimiter

  /** The token strtok returns (None for NULL) and the text its saved
      pointer is left at. */
  datatype Token = Token(token: Option<seq<char>>, rest: seq<char>)

  /** One strtok call on the text still to be scanned: leading
      delimiters are skipped, the token runs to the next delimiter, which
      is consumed. */
  function StrTok(s: seq<char>, delim: char): (t: Token)
    ensures |t.rest| <= |s|
    ensures t.token.None? ==> t.rest == []
    ensures t.token.Some? ==> |t.token.value| > 0 && delim !in t.token.value && |t.rest| < |s|
    decreases |s|
  {
    if |s| == 0 then Token(None, [])
    else if s[0] == delim then StrTok(s[1..], delim)
    else if delim in s then
      var k := FirstOf(s, delim);
      Token(Some(s[..k]), s[k + 1..])
    else Token(Some(s), [])
  }

  /** `n` delimiters in a row. */
  function Run(delim: char, n: nat): (r: seq<char>)
  {
    seq(n, _ => delim)
  }

  /** strtok finds no token exactly when only delimiters are left. */
  lemma {:induction false} StrTokNone(s: seq<char>, delim: char)
    ensures StrTok(s, delim).token.None? <==> forall i :: 0 <= i < |s| ==> s[i] == delim
    decreases |s|
  {
    if |s| > 0 && s[0] == delim {
      StrTokNone(s[1..], delim);
      assert forall i :: 1 <= i < |s| ==> s[i] == s[1..][i - 1];
    }
  }

  /** Leading delimiters do not change what strtok returns. */
  lemma {:induction false} StrTokSkip(n: nat, s: seq<char>, delim: char)
    ensures StrTok(Run(delim, n) + s, delim) == StrTok(s, delim)
    decreases n
  {
    if n > 0 {
      var t := Run(delim, n) + s;
      assert t[0] == delim;
      assert t[1..] == Run(delim, n - 1) + s;
      assert StrTok(t, delim) == StrTok(t[1..], delim);
      StrTokSkip(n - 1, s, delim);
    } else {
      assert Run(delim, n) + s == s;
    }
  }

  /** A token followed by a delimiter is returned whole, and scanning
      resumes just after the delimiter. */
  lemma StrTokCons(tok: seq<char>, rest: seq<char>, delim: char)
    requires |tok| > 0 && delim !in tok
    ensures StrTok(tok + [delim] + rest, delim) == Token(Some(tok), rest)
  {
    var s := tok + [delim] + rest;
    FirstOfPrefix(tok, rest, delim);
    assert s[0] == tok[0];
    assert s[..|tok|] == tok;
    assert s[|tok| + 1..] == rest;
  }

  /** A last token is returned whole and nothing is left to scan. */
  lemma StrTokLast(tok: seq<char>, delim: char)
    requires |tok| > 0 && delim !in tok
    ensures StrTok(tok, delim) == Token(Some(tok), [])
  {
  }

  /** The non-empty parts of a sequence of pieces, in order. */
  function NonEmpty(parts: seq<seq<char>>): (r: seq<seq<char>>)
  {
    if |parts| == 0 then []
    else (if |parts[0]| > 0 then [parts[0]] else []) + NonEmpty(parts[1..])
  }

  /** The pieces of `s` between delimiters, empty ones dropped: what a
      reader of a topic calls its levels. */
  function Pieces(s: seq<char>, delim: char): seq<seq<char>>
  {
    NonEmpty(SplitOn(s, delim))
  }

  /** Every token successive strtok calls return, starting from `s`. */
  function Tokens(s: seq<char>, delim: char): seq<seq<char>>
    decreases |s|
  {
    var t := StrTok(s, delim);
    if t.token.None? then [] else [t.token.value] + Tokens(t.rest, delim)
  }

  /** strtok returns the pieces between delimiters, empty ones skipped. */
  lemma {:induction false} TokensArePieces(s: seq<char>, delim: char)
    ensures Tokens(s, delim) == Pieces(s, delim)
    decreases |s|
  {
    if |s| == 0 {
      assert SplitOn(s, delim) == [s];
      assert NonEmpty([s]) == [] + NonEmpty([]);
    } else if s[0] == delim {
      TokensArePieces(s[1..], delim);
      var parts := SplitOn(s, delim);
      assert FirstOf(s, delim) == 0;
      assert parts == [[]] + SplitOn(s[1..], delim);
      assert parts[1..] == SplitOn(s[1..], delim);
    } else if delim in s {
      var k := FirstOf(s, delim);
      TokensArePieces(s[k + 1..], delim);
      var parts := SplitOn(s, delim);
      assert parts == [s[..k]] + SplitOn(s[k + 1..], delim);
      assert parts[1..] == SplitOn(s[k + 1..], delim);
    } else {
      assert SplitOn(s, delim) == [s];
      assert StrTok(s, delim) == Token(Some(s), []);
      assert NonEmpty([s]) == [s] + NonEmpty([]);
    }
  }

  /** One strtok call takes the first piece and leaves the others. */
  lemma TokenStep(s: seq<char>, delim: char)
    ensures var t := StrTok(s, delim);
      var p := Pieces(s, delim);
      && (t.token.None? <==> |p| == 0)
      && (t.token.Some? ==> p[0] == t.token.value && Pieces(t.rest, delim) == p[1..])
  {
    TokensArePieces(s, delim);
    var t := StrTok(s, delim);
    if t.token.Some? {
      TokensArePieces(t.rest, delim);
    }
  }

  // ---------------------------------------------------------------
  // handleIncomingMessage: routing a topic

  /** What the topic says to do: nothing, log one of the two
      "Malformed topic string" warnings, call a direct method, or use a
      NULL token (undefined behaviour). */
  datatype Routing = Ignored | Malformed(code: nat) | Method(name: seq<char>, rid: seq<char>) | NullToken(reason: string)

  /** The topic IoT Hub publishes a direct method call on. */
  function MethodTopic(name: seq<char>, rid: seq<char>): seq<char>
  {
    "$iothub/methods/POST/" + name + "/?$rid=" + rid
  }

  /** The method name and request id strtok yields after `POST`: the
      next `/` token, then the second `=` token. */
  datatype Args = Args(name: Option<seq<char>>, rid: Option<seq<char>>)

  function MethodArgs(s: seq<char>): (a: Args)
    ensures a.name.Some? ==> '/' !in a.name.value && |a.name.value| > 0
    ensures a.rid.Some? ==> '=' !in a.rid.value && |a.rid.value| > 0
  {
    var t4 := StrTok(s, '/');
    var t5 := StrTok(t4.rest, '=');
    var t6 := StrTok(t5.rest, '=');
    Args(t4.token, t6.token)
  }

  /** The first three levels of a method call topic. */
  const MethodLevels: seq<seq<char>> := ["$iothub", "methods", "POST"]

  /** handleIncomingMessage as written. The second and third tokens are
      compared with strcmp without a NULL check, and a NULL method name
      or request id is passed on to be printed and compared. In terms of
      the topic's levels `p`: */
  function RouteAsWritten(topic: seq<char>): (r: Routing)
    // no level at all: the first warning
    ensures r == Malformed(1) <==> |Pieces(topic, '/')| == 0
    // not under `$iothub`, or under `$iothub` but not `methods`: ignored
    ensures var p := Pieces(topic, '/');
      r.Ignored? <==> |p| > 0 && (p[0] != "$iothub" || (|p| > 1 && p[1] != "methods"))
    // a method topic with another verb: the second warning
    ensures var p := Pieces(topic, '/');
      r == Malformed(2) <==> |p| > 2 && p[0] == "$iothub" && p[1] == "methods" && p[2] != "POST"
    // a NULL token below four levels: exactly the three topics cut short
    ensures var p := Pieces(topic, '/');
      r.NullToken? && |p| < 4 <==> 0 < |p| && p <= MethodLevels
    // a call names the fourth level
    ensures var p := Pieces(topic, '/');
      r.Method? ==> MethodLevels < p && p[3] == r.name
  {
    RouteLevels(topic);
    var t1 := StrTok(topic, '/');
    var t2 := StrTok(t1.rest, '/');
    var t3 := StrTok(t2.rest, '/');
    if t1.token.None? then Malformed(1)
    else if t1.token.value != "$iothub" then Ignored
    else if t2.token.None? then NullToken("strcmp of a NULL second token")
    else if t2.token.value != "methods" then Ignored
    else if t3.token.None? then NullToken("strcmp of a NULL third token")
    else if t3.token.value != "POST" then Malformed(2)
    else
      var a := MethodArgs(t3.rest);
      if a.name.None? || a.rid.None? then NullToken("NULL method name or request id")
      else Method(a.name.value, a.rid.value)
  }

  /** The `n`-th level, if the topic has that many. */
  function Level(p: seq<seq<char>>, n: nat): Option<seq<char>>
  {
    if n < |p| then Some(p[n]) else None
  }

  /** The first four strtok calls of the routine return the first four
      levels of the topic. */
  lemma RouteLevels(topic: seq<char>)
    ensures var p := Pieces(topic, '/');
      var t1 := StrTok(topic, '/');
      var t2 := StrTok(t1.rest, '/');
      var t3 := StrTok(t2.rest, '/');
      && t1.token == Level(p, 0)
      && t2.token == Level(p, 1)
      && t3.token == Level(p, 2)
      && MethodArgs(t3.rest).name == Level(p, 3)
  {
    var t1 := StrTok(topic, '/');
    TokenStep(topic, '/');
    var t2 := StrTok(t1.rest, '/');
    TokenStep(t1.rest, '/');
    var t3 := StrTok(t2.rest, '/');
    TokenStep(t2.rest, '/');
    TokenStep(t3.rest, '/');
  }

  /** What is left of the topic after its first three tokens. */
  function TailAfterVerb(topic: seq<char>): seq<char>
  {
    StrTok(StrTok(StrTok(topic, '/').rest, '/').rest, '/').rest
  }

  /** handleIncomingMessage with the missing tokens handled: a bare
      `$iothub` is not a method call, and a method topic without a verb,
      name or request id is malformed. */
  function Route(topic: seq<char>): (r: Routing)
    ensures !r.NullToken?
    ensures !RouteAsWritten(topic).NullToken? ==> r == RouteAsWritten(topic)
    ensures RouteAsWritten(topic).NullToken? ==> r.Ignored? || r == Malformed(2)
  {
    var t1 := StrTok(topic, '/');
    if t1.token.None? then Malformed(1)
    else if t1.token.value != "$iothub" then Ignored
    else
      var t2 := StrTok(t1.rest, '/');
      if t2.token.None? || t2.token.value != "methods" then Ignored
      else
        var t3 := StrTok(t2.rest, '/');
        if t3.token.None? || t3.token.value != "POST" then Malformed(2)
        else
          var a := MethodArgs(t3.rest);
          if a.name.None? || a.rid.None? then Malformed(2)
          else Method(a.name.value, a.rid.value)
  }

  /** A well-formed name and request id fit for a method topic. */
  predicate TopicSafe(name: seq<char>, rid: seq<char>)
  {
    |name| > 0 && '/' !in name && |rid| > 0 && '=' !in rid
  }

  lemma RidMarker()
    ensures "/?$rid=" == ['/'] + "?$rid" + ['=']
    ensures '=' !in "?$rid"
  {
  }

  lemma MethodArgsOf(name: seq<char>, rid: seq<char>)
    requires TopicSafe(name, rid)
    ensures MethodArgs(name + "/?$rid=" + rid) == Args(Some(name), Some(rid))
  {
    RidMarker();
    assert name + "/?$rid=" + rid == name + ['/'] + ("?$rid" + ['='] + rid);
    StrTokCons(name, "?$rid" + ['='] + rid, '/');
    StrTokCons("?$rid", rid, '=');
    StrTokLast(rid, '=');
  }

  /** Three tokens in a row, each followed by the delimiter. */
  lemma ThreeTokens(a: seq<char>, b: seq<char>, c: seq<char>, tail: seq<char>, delim: char)
    requires |a| > 0 && delim !in a && |b| > 0 && delim !in b && |c| > 0 && delim !in c
    ensures var t1 := StrTok(a + [delim] + b + [delim] + c + [delim] + tail, delim);
      && t1 == Token(Some(a), b + [delim] + c + [delim] + tail)
      && StrTok(t1.rest, delim) == Token(Some(b), c + [delim] + tail)
      && StrTok(c + [delim] + tail, delim) == Token(Some(c), tail)
  {
    assert a + [delim] + b + [delim] + c + [delim] + tail == a + [delim] + (b + [delim] + c + [delim] + tail);
    StrTokCons(a, b + [delim] + c + [delim] + tail, delim);
    assert b + [delim] + c + [delim] + tail == b + [delim] + (c + [delim] + tail);
    StrTokCons(b, c + [delim] + tail, delim);
    StrTokCons(c, tail, delim);
  }

  lemma MethodsPrefix()
    ensures "$iothub/methods/" == "$iothub" + ['/'] + "methods" + ['/']
    ensures '/' !in "$iothub" && '/' !in "methods" && '/' !in "POST"
  {
  }

  /** The first three tokens of a method topic. */
  lemma MethodTopicTokens(tail: seq<char>)
    ensures var t1 := StrTok("$iothub/methods/POST/" + tail, '/');
      && t1 == Token(Some("$iothub"), "methods/POST/" + tail)
      && StrTok(t1.rest, '/') == Token(Some("methods"), "POST/" + tail)
      && StrTok(StrTok(t1.rest, '/').rest, '/') == Token(Some("POST"), tail)
  {
    MethodsPrefix();
    assert "$iothub/methods/POST/" == "$iothub/methods/" + "POST" + ['/'];
    assert "methods/POST/" == "methods" + ['/'] + "POST" + ['/'];
    assert "POST/" == "POST" + ['/'];
    ThreeTokens("$iothub", "methods", "POST", tail, '/');
  }

  /** The name and request id of a method topic reach the handler
      unchanged, as written and corrected. */
  lemma RouteMethodTopic(name: seq<char>, rid: seq<char>)
    requires TopicSafe(name, rid)
    ensures RouteAsWritten(MethodTopic(name, rid)) == Method(name, rid)
    ensures Route(MethodTopic(name, rid)) == Method(name, rid)
  {
    var tail := name + "/?$rid=" + rid;
    assert MethodTopic(name, rid) == "$iothub/methods/POST/" + tail;
    MethodTopicTokens(tail);
    MethodArgsOf(name, rid);
  }

  /** A method topic whose verb is not `POST` is rejected with the
      second warning and dispatches nothing. */
  lemma RouteOtherVerb(verb: seq<char>, tail: seq<char>)
    requires |verb| > 0 && '/' !in verb && verb != "POST"
    ensures RouteAsWritten("$iothub/methods/" + verb + "/" + tail) == Malformed(2)
    ensures Route("$iothub/methods/" + verb + "/" + tail) == Malformed(2)
  {
    MethodsPrefix();
    assert "/" == ['/'];
    ThreeTokens("$iothub", "methods", verb, tail, '/');
  }

  /** Only a topic whose first three tokens are `$iothub`, `methods`,
      `POST` calls a method. */
  lemma RouteMethodOnlyForPost(topic: seq<char>)
    ensures Route(topic).Method? ==>
      var t1 := StrTok(topic, '/');
      var t2 := StrTok(t1.rest, '/');
      && t1.token == Some("$iothub")
      && t2.token == Some("methods")
      && StrTok(t2.rest, '/').token == Some("POST")
  {
  }

  /** Nothing but delimiters. */
  predicate OnlyDelims(s: seq<char>, delim: char)
  {
    forall i :: 0 <= i < |s| ==> s[i] == delim
  }

  /** A last token, possibly followed by delimiters, leaves nothing for
      the next call. */
  lemma LastToken(c: seq<char>, tail: seq<char>, delim: char)
    requires |c| > 0 && delim !in c && OnlyDelims(tail, delim)
    ensures StrTok(c + tail, delim).token == Some(c)
    ensures StrTok(StrTok(c + tail, delim).rest, delim).token.None?
  {
    if tail == [] {
      assert c + tail == c;
      StrTokLast(c, delim);
    } else {
      assert c + tail == c + [delim] + tail[1..];
      StrTokCons(c, tail[1..], delim);
      StrTokNone(tail[1..], delim);
    }
  }

  /** The routine as written strcmp's a NULL second token for a topic
      that is `$iothub` and slashes; the corrected routine ignores it. */
  lemma BareIothub(tail: seq<char>)
    requires OnlyDelims(tail, '/')
    ensures RouteAsWritten("$iothub" + tail).NullToken?
    ensures Route("$iothub" + tail) == Ignored
  {
    MethodsPrefix();
    LastToken("$iothub", tail, '/');
  }

  /** As written, a method topic that stops before its verb strcmp's a
      NULL third token; corrected, it is rejected. */
  lemma MissingVerb(tail: seq<char>)
    requires OnlyDelims(tail, '/')
    ensures RouteAsWritten("$iothub/methods" + tail).NullToken?
    ensures Route("$iothub/methods" + tail) == Malformed(2)
  {
    MethodsPrefix();
    assert "$iothub/methods" + tail == "$iothub" + ['/'] + ("methods" + tail) by {
      assert "$iothub/methods" == "$iothub" + ['/'] + "methods";
    }
    StrTokCons("$iothub", "methods" + tail, '/');
    LastToken("methods", tail, '/');
  }

  /** As written, a method topic that stops after `POST` passes a NULL
      method name on; corrected, it is rejected. */
  lemma MissingName(tail: seq<char>)
    requires OnlyDelims(tail, '/')
    ensures RouteAsWritten("$iothub/methods/POST" + tail).NullToken?
    ensures Route("$iothub/methods/POST" + tail) == Malformed(2)
  {
    MethodsPrefix();
    assert "$iothub/methods/POST" + tail == "$iothub" + ['/'] + ("methods" + ['/'] + ("POST" + tail)) by {
      assert "$iothub/methods/POST" == "$iothub/methods/" + "POST";
    }
    StrTokCons("$iothub", "methods" + ['/'] + ("POST" + tail), '/');
    StrTokCons("methods", "POST" + tail, '/');
    LastToken("POST", tail, '/');
  }

  // ---------------------------------------------------------------
  // The method registry

  const MaxRegisteredMethods := 10

  /** A registered callback, identified by which one it is; calling it
      is the effect the model records. */
  type Callback = nat

  datatype Registration = Registration(name: seq<char>, callback: Callback)

  /** The global registry: ten slots, each empty (a NULL name) or
      holding a registration. */
  type Registry = r: seq<Option<Registration>> | |r| == MaxRegisteredMethods
    witness [None, None, None, None, None, None, None, None, None, None]

  /** The zero-initialised registry at start-up. */
  const EmptyRegistry: Registry := [None, None, None, None, None, None, None, None, None, None]

  /** registerDeviceMethod as written: the registration always goes to
      slot 0. */
  function RegisterAsWritten(reg: Registry, name: seq<char>, callback: Callback): (r: Registry)
    ensures r[0] == Some(Registration(name, callback))
    ensures forall i :: 1 <= i < MaxRegisteredMethods ==> r[i] == reg[i]
  {
    reg[0 := Some(Registration(name, callback))]
  }

  /** Slot `i` holds a registration under `name`. */
  predicate Holds(reg: Registry, name: seq<char>, i: int)
  {
    0 <= i < MaxRegisteredMethods && reg[i].Some? && reg[i].value.name == name
  }

  /** The first slot at or after `i` registered under `name`. */
  function FindFrom(reg: Registry, name: seq<char>, i: nat): (r: Option<nat>)
    ensures r.Some? ==> i <= r.value && Holds(reg, name, r.value)
    decreases MaxRegisteredMethods - i
  {
    if i >= MaxRegisteredMethods then None
    else if Holds(reg, name, i) then Some(i)
    else FindFrom(reg, name, i + 1)
  }

  /** The search finds the first matching slot, and nothing exactly when
      no slot matches. */
  lemma {:induction false} FindFromSpec(reg: Registry, name: seq<char>, i: nat)
    ensures FindFrom(reg, name, i).Some? ==>
      forall j :: i <= j < FindFrom(reg, name, i).value ==> !Holds(reg, name, j)
    ensures FindFrom(reg, name, i).None? <==> forall j :: i <= j ==> !Holds(reg, name, j)
    decreases MaxRegisteredMethods - i
  {
    if i < MaxRegisteredMethods && !Holds(reg, name, i) {
      FindFromSpec(reg, name, i + 1);
    }
  }

  function Find(reg: Registry, name: seq<char>): Option<nat>
  {
    FindFrom(reg, name, 0)
  }

  /** The first empty slot at or after `i`. */
  function FreeFrom(reg: Registry, i: nat): (r: Option<nat>)
    ensures r.Some? ==> i <= r.value < MaxRegisteredMethods && reg[r.value].None?
    ensures r.Some? ==> forall j :: i <= j < r.value ==> reg[j].Some?
    ensures r.None? ==> forall j :: i <= j < MaxRegisteredMethods ==> reg[j].Some?
    decreases MaxRegisteredMethods - i
  {
    if i >= MaxRegisteredMethods then None
    else if reg[i].None? then Some(i)
    else FreeFrom(reg, i + 1)
  }

  /** The registry with slot `i` set to `entry`. */
  function Put(reg: Registry, i: nat, entry: Registration): (r: Registry)
    requires i < MaxRegisteredMethods
    ensures r[i] == Some(entry)
    ensures forall j :: 0 <= j < MaxRegisteredMethods && j != i ==> r[j] == reg[j]
  {
    reg[i := Some(entry)]
  }

  /** registerDeviceMethod as its comment describes it, adding the name
      to the map: an existing registration of the name is replaced,
      otherwise the first empty slot is taken; a full registry refuses
      the registration and is left as it was. */
  function Register(reg: Registry, name: seq<char>, callback: Callback): (r: Outcome<Registry>)
    ensures r.Failed? <==> Find(reg, name).None? && forall j :: 0 <= j < MaxRegisteredMethods ==> reg[j].Some?
    ensures !r.Faulted?
    // exactly one slot is set: the first holding the name, or else the
    // first empty one when no slot holds it
    ensures r.Ok? ==>
      exists i :: 0 <= i < MaxRegisteredMethods
        && r.value == Put(reg, i, Registration(name, callback))
        && (Holds(reg, name, i) || (reg[i].None? && Find(reg, name).None?))
        && forall j :: 0 <= j < i ==> !Holds(reg, name, j) && (Find(reg, name).None? ==> reg[j].Some?)
  {
    FindFromSpec(reg, name, 0);
    match Find(reg, name)
    case Some(i) => Ok(Put(reg, i, Registration(name, callback)))
    case None =>
      match FreeFrom(reg, 0)
      case Some(i) => Ok(Put(reg, i, Registration(name, callback)))
      case None => Failed
  }

  // ---------------------------------------------------------------
  // handleIncomingDirectMethod: dispatch and response

  const ResponsePrefix := "$iothub/methods/res/200/?$rid="

  /** The topic a method call is answered on. */
  function ResponseTopic(rid: seq<char>): seq<char>
  {
    ResponsePrefix + rid
  }

  /** `char responseTopic[100]`. */
  const ResponseTopicSize := 100

  /** The payload every answer carries. */
  const ResponsePayload := "{}"

  /** What a message leads to: nothing, a warning, a registered callback
      called and answered on a topic, or undefined behaviour. */
  datatype Effect =
    | Nothing
    | Warned(code: nat)
    | Answered(callback: Callback, topic: seq<char>, payload: seq<char>)
    | Undefined(reason: string)

  /** The registry loop as written: strcmp on every slot in turn, an
      empty slot's NULL name included; the first match is called and
      answered, and the loop stops. */
  function ScanAsWritten(reg: Registry, name: seq<char>, topic: seq<char>, i: nat): (e: Effect)
    ensures e.Answered? ==>
      && FindFrom(reg, name, i).Some?
      && e == Answered(reg[FindFrom(reg, name, i).value].value.callback, topic, ResponsePayload)
    ensures e.Nothing? || e.Answered? || e.Undefined?
    decreases MaxRegisteredMethods - i
  {
    if i >= MaxRegisteredMethods then Nothing
    else match reg[i]
      case None => Undefined("strcmp of an empty slot's NULL name")
      case Some(entry) =>
        if entry.name == name then Answered(entry.callback, topic, ResponsePayload)
        else ScanAsWritten(reg, name, topic, i + 1)
  }

  /** handleIncomingDirectMethod as written: sprintf into the 100-byte
      response topic, then the registry loop. */
  function DispatchAsWritten(reg: Registry, name: seq<char>, rid: seq<char>): (e: Effect)
    ensures |rid| + |ResponsePrefix| >= ResponseTopicSize ==> e.Undefined?
    ensures e.Answered? ==> e.topic == ResponseTopic(rid) && e.payload == ResponsePayload
    ensures e.Answered? ==> Find(reg, name).Some? && e.callback == reg[Find(reg, name).value].value.callback
    ensures e.Nothing? || e.Answered? || e.Undefined?
  {
    if |ResponseTopic(rid)| >= ResponseTopicSize then Undefined("response topic overflows its 100-byte buffer")
    else ScanAsWritten(reg, name, ResponseTopic(rid), 0)
  }

  /** handleIncomingDirectMethod with empty slots skipped and the
      response topic never cut short: the first slot registered under the
      name is called and answered on the response topic for the request
      id; an unknown name is answered by nothing. */
  function Dispatch(reg: Registry, name: seq<char>, rid: seq<char>): (e: Effect)
    ensures e.Nothing? <==> forall j :: 0 <= j < MaxRegisteredMethods ==> !Holds(reg, name, j)
    ensures e.Answered? ==>
      exists i :: Holds(reg, name, i) && reg[i].value.callback == e.callback
        && (forall j :: 0 <= j < i ==> !Holds(reg, name, j))
    ensures e.Answered? ==> e.topic == ResponseTopic(rid) && e.payload == ResponsePayload
    ensures e.Nothing? || e.Answered?
  {
    FindFromSpec(reg, name, 0);
    match Find(reg, name)
    case None => Nothing
    case Some(i) => Answered(reg[i].value.callback, ResponseTopic(rid), ResponsePayload)
  }

  /** Where the loop as written does not reach undefined behaviour, it
      does what the corrected scan does. */
  lemma {:induction false} ScanAgrees(reg: Registry, name: seq<char>, topic: seq<char>, i: nat)
    ensures var e := ScanAsWritten(reg, name, topic, i);
      !e.Undefined? ==> match FindFrom(reg, name, i)
        case None => e.Nothing?
        case Some(j) => e == Answered(reg[j].value.callback, topic, ResponsePayload)
    decreases MaxRegisteredMethods - i
  {
    if i < MaxRegisteredMethods && reg[i].Some? && reg[i].value.name != name {
      ScanAgrees(reg, name, topic, i + 1);
    }
  }

  /** The dispatch as written either reaches undefined behaviour or does
      what the corrected dispatch does. */
  lemma DispatchAgrees(reg: Registry, name: seq<char>, rid: seq<char>)
    ensures DispatchAsWritten(reg, name, rid).Undefined?
            || DispatchAsWritten(reg, name, rid) == Dispatch(reg, name, rid)
  {
    ScanAgrees(reg, name, ResponseTopic(rid), 0);
  }

  /** A request id of 70 characters or more overflows the response
      topic buffer as written; the corrected dispatch answers on the
      whole topic. */
  lemma LongRequestId(reg: Registry, name: seq<char>, rid: seq<char>)
    requires |rid| >= 70
    ensures DispatchAsWritten(reg, name, rid).Undefined?
    ensures Dispatch(reg, name, rid).Answered? ==> Dispatch(reg, name, rid).topic[|ResponsePrefix|..] == rid
  {
  }

  /** With the registration written to slot 0 as registerDeviceMethod
      does, every name but the registered one runs into the NULL name of
      slot 1, while the corrected dispatch answers nothing. */
  lemma UnknownMethod(name: seq<char>, callback: Callback, other: seq<char>, rid: seq<char>)
    requires other != name && |rid| < 70
    ensures DispatchAsWritten(RegisterAsWritten(EmptyRegistry, name, callback), other, rid).Undefined?
    ensures Dispatch(RegisterAsWritten(EmptyRegistry, name, callback), other, rid) == Nothing
  {
    var reg := RegisterAsWritten(EmptyRegistry, name, callback);
    assert reg[1].None?;
    assert ScanAsWritten(reg, other, ResponseTopic(rid), 1).Undefined?;
  }

  /** As written, registering a second method evicts the first: it is
      no longer found. Registered the corrected way, both are kept. */
  lemma SecondRegistration(a: seq<char>, ca: Callback, b: seq<char>, cb: Callback)
    requires a != b
    ensures Find(RegisterAsWritten(RegisterAsWritten(EmptyRegistry, a, ca), b, cb), a).None?
    ensures var r1 := Register(EmptyRegistry, a, ca);
      && r1.Ok?
      && var r2 := Register(r1.value, b, cb);
      && r2.Ok?
      && Dispatch(r2.value, a, "1") == Answered(ca, ResponseTopic("1"), ResponsePayload)
      && Dispatch(r2.value, b, "1") == Answered(cb, ResponseTopic("1"), ResponsePayload)
  {
    var w := RegisterAsWritten(RegisterAsWritten(EmptyRegistry, a, ca), b, cb);
    FindFromSpec(w, a, 0);
    assert !Holds(w, a, 0);
    var r1 := Register(EmptyRegistry, a, ca);
    assert Holds(EmptyRegistry[0 := Some(Registration(a, ca))], a, 0);
    FindFromSpec(EmptyRegistry, a, 0);
    assert r1 == Ok(EmptyRegistry[0 := Some(Registration(a, ca))]);
    var reg1 := r1.value;
    FindFromSpec(reg1, b, 0);
    assert FreeFrom(reg1, 0) == Some(1);
    var reg2 := reg1[1 := Some(Registration(b, cb))];
    assert Register(reg1, b, cb) == Ok(reg2);
    assert Holds(reg2, a, 0);
    assert Holds(reg2, b, 1) && !Holds(reg2, b, 0);
  }

  /** A search over two registries that agree on which slots hold the
      name finds the same slot. */
  lemma {:induction false} FindFromSame(a: Registry, b: Registry, name: seq<char>, i: nat)
    requires forall j :: i <= j < MaxRegisteredMethods ==> Holds(a, name, j) == Holds(b, name, j)
    ensures FindFrom(a, name, i) == FindFrom(b, name, i)
    decreases MaxRegisteredMethods - i
  {
    if i < MaxRegisteredMethods && !Holds(a, name, i) {
      FindFromSame(a, b, name, i + 1);
    }
  }

  /** The search finds the slot that holds the name with none before it. */
  lemma FindIsFirst(reg: Registry, name: seq<char>, i: nat)
    requires Holds(reg, name, i) && forall j :: 0 <= j < i ==> !Holds(reg, name, j)
    ensures Find(reg, name) == Some(i)
  {
    FindFromSpec(reg, name, 0);
  }

  /** After a registration, a call of that name reaches its callback and
      every other name is dispatched as before. */
  lemma RegisterThenDispatch(reg: Registry, name: seq<char>, callback: Callback, other: seq<char>, rid: seq<char>)
    requires Register(reg, name, callback).Ok?
    requires other != name
    ensures Dispatch(Register(reg, name, callback).value, name, rid) == Answered(callback, ResponseTopic(rid), ResponsePayload)
    ensures Dispatch(Register(reg, name, callback).value, other, rid) == Dispatch(reg, other, rid)
  {
    var r := Register(reg, name, callback).value;
    FindFromSpec(reg, name, 0);
    var i := if Find(reg, name).Some? then Find(reg, name).value else FreeFrom(reg, 0).value;
    assert r == Put(reg, i, Registration(name, callback));
    assert forall j :: 0 <= j < i ==> !Holds(r, name, j) by {
      assert forall j :: 0 <= j < i ==> r[j] == reg[j];
    }
    FindIsFirst(r, name, i);
    assert !Holds(reg, other, i);
    FindFromSame(r, reg, other, 0);
  }

  // ---------------------------------------------------------------
  // The MQTT callback end to end

  /** The message callback as written. */
  function HandleIncomingMessageAsWritten(reg: Registry, topic: seq<char>): (e: Effect)
    // a topic without levels gets the first warning
    ensures e == Warned(1) <==> |Pieces(topic, '/')| == 0
    // a method topic whose verb is not `POST` gets the second
    ensures var p := Pieces(topic, '/');
      e == Warned(2) <==> |p| > 2 && p[0] == "$iothub" && p[1] == "methods" && p[2] != "POST"
    // `$iothub`, `$iothub/methods` and `$iothub/methods/POST` use a NULL token
    ensures var p := Pieces(topic, '/');
      0 < |p| && p <= MethodLevels ==> e.Undefined?
    // only a method topic whose name is registered calls back, the
    // first slot registered under that name
    ensures var p := Pieces(topic, '/');
      e.Answered? ==>
        && MethodLevels < p
        && Find(reg, p[3]).Some?
        && e.callback == reg[Find(reg, p[3]).value].value.callback
  {
    match RouteAsWritten(topic)
    case Ignored => Nothing
    case Malformed(code) => Warned(code)
    case NullToken(why) => Undefined(why)
    case Method(name, rid) => DispatchAsWritten(reg, name, rid)
  }

  /** The message callback with the corrected routing and dispatch. */
  function HandleIncomingMessage(reg: Registry, topic: seq<char>): (e: Effect)
    ensures !e.Undefined?
    ensures e.Answered? ==> Route(topic).Method? && e.topic == ResponseTopic(Route(topic).rid)
  {
    match Route(topic)
    case Ignored => Nothing
    case Malformed(code) => Warned(code)
    case Method(name, rid) => Dispatch(reg, name, rid)
  }

  /** The callback as written either reaches undefined behaviour or
      agrees with the corrected one. */
  lemma HandleAgrees(reg: Registry, topic: seq<char>)
    ensures HandleIncomingMessageAsWritten(reg, topic).Undefined?
            || HandleIncomingMessageAsWritten(reg, topic) == HandleIncomingMessage(reg, topic)
  {
    if RouteAsWritten(topic).Method? {
      DispatchAgrees(reg, RouteAsWritten(topic).name, RouteAsWritten(topic).rid);
    }
  }

  /** A method call for a registered name is answered on the response
      topic that carries the same request id, by the first callback
      registered under that name. */
  lemma MethodCallAnswered(reg: Registry, name: seq<char>, rid: seq<char>, i: nat)
    requires TopicSafe(name, rid)
    requires Holds(reg, name, i) && forall j :: 0 <= j < i ==> !Holds(reg, name, j)
    ensures HandleIncomingMessage(reg, MethodTopic(name, rid))
            == Answered(reg[i].value.callback, ResponsePrefix + rid, "{}")
  {
    RouteMethodTopic(name, rid);
    FindIsFirst(reg, name, i);
  }
}
