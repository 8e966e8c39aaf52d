/** The login handshake of `MonetDB::Connection::Setup` as functions from the
    connection's state to a result and a new state: `authenticate`,
    `obtain_server_challenge!`, `select_supported_auth_type!` and
    `authentication_redirect`, with the transport as a queue of reply lines
    and a trace of what is written. */
module Handshake {
  import opened Types
  import opened Text
  import opened ChallengeParser
  import opened Negotiation
  import opened Credentials

  /** `read`: the next reply line; a failure when the transport has none left. */
  function ReadSpec(s: State): (r: Step<string>)
    ensures r.result.Ok? <==> |s.input| > 0
    ensures r.result.Ok? ==> s.input == [r.result.value] + r.state.input
    ensures r.result.Err? ==> r.result.error == EndOfInput && r.state == s
    ensures r.state == s.(input := r.state.input)
  {
    if |s.input| == 0 then Step(Err(EndOfInput), s)
    else
      assert s.input == [s.input[0]] + s.input[1..];
      Step(Ok(s.input[0]), s.(input := s.input[1..]))
  }

  /** `write`: the line is appended to the trace. */
  function WriteSpec(s: State, line: string): State
  {
    s.(trace := s.trace + [Write(line)])
  }

  /** The number of lines written in a trace. */
  function Writes(trace: seq<Event>): nat
  {
    if |trace| == 0 then 0
    else Writes(trace[..|trace| - 1]) + (if trace[|trace| - 1].Write? then 1 else 0)
  }

  /** `line.split(",")` of the server's authentication types. */
  function ServerAuthTypes(list: string): seq<string>
  {
    Split(list, ',')
  }

  /** `select_supported_auth_type!`: store the chosen type (nil when there
      is none) and raise when the server offers nothing the client supports. */
  function SelectSupportedAuthTypeSpec(settings: Settings, s: State): (r: Step<()>)
    ensures r.state == s.(config := s.config.(authType := r.state.config.authType))
    ensures r.result.Ok? <==> (s.config.challenge.authTypes.Some? &&
      exists k :: FirstSharedAt(settings.authTypes, ServerAuthTypes(s.config.challenge.authTypes.value), k))
    ensures r.result.Ok? ==> exists k ::
      FirstSharedAt(settings.authTypes, ServerAuthTypes(s.config.challenge.authTypes.value), k) &&
      r.state.config.authType == Some(settings.authTypes[k])
    ensures s.config.challenge.authTypes.None? ==> r == Step(Err(NilField("auth_types")), s)
  {
    match s.config.challenge.authTypes
    case None => Step(Err(NilField("auth_types")), s)
    case Some(list) =>
      var offered := ServerAuthTypes(list);
      var chosen := SelectAuthType(settings.authTypes, offered);
      SelectAuthTypePriority(settings.authTypes, offered);
      var s' := s.(config := s.config.(authType := chosen));
      if chosen.None? then Step(Err(AuthenticationError(UnsupportedAuthTypes(offered))), s')
      else Step(Ok(()), s')
  }

  /** The configuration after a challenge line has been merged in and the
      authentication type chosen. */
  function Negotiated(settings: Settings, config: Config, line: string): Config
  {
    var c := config.(challenge := ParseChallenge(line));
    c.(authType := SelectAuthType(settings.authTypes, ServerAuthTypes(c.challenge.authTypes.GetOr(""))))
  }

  /** `obtain_server_challenge!`: read and merge the challenge, check the
      protocol, choose the authentication type. It never writes. */
  function ObtainServerChallengeSpec(env: Env, s: State): (r: Step<()>)
    ensures r.state.trace == s.trace && r.state.redirects == s.redirects
    ensures r.state.timezoneSet == s.timezoneSet && r.state.replySizeSet == s.replySizeSet
    ensures r.result.Ok? ==>
      |s.input| > 0 && r.state.input == s.input[1..] &&
      r.state.config == Negotiated(env.settings, s.config, s.input[0]) &&
      r.state.config.authType.Some?
  {
    var line := ReadSpec(s);
    if line.result.Err? then Step(Err(line.result.error), line.state)
    else
      var s1 := line.state.(config := line.state.config.(challenge := ParseChallenge(line.result.value)));
      var protocol := AssertSupportedProtocol(env.settings, s1.config);
      if protocol.Err? then Step(Err(protocol.error), s1)
      else SelectSupportedAuthTypeSpec(env.settings, s1)
  }

  /** How many more merovingian redirects the counter allows. */
  function Budget(redirects: Option<nat>): nat
  {
    if redirects.GetOr(0) >= 5 then 0 else 5 - redirects.GetOr(0)
  }

  /** `authenticate`: negotiate, send the credentials, classify the reply. */
  function AuthenticateSpec(env: Env, s: State): Step<AuthOutcome>
    decreases Budget(s.redirects), 1
  {
    var obtained := ObtainServerChallengeSpec(env, s);
    if obtained.result.Err? then Step(Err(obtained.result.error), obtained.state)
    else
      var credentials := AuthenticationString(env, obtained.state.config);
      if credentials.Err? then Step(Err(credentials.error), obtained.state)
      else
        var reply := ReadSpec(WriteSpec(obtained.state, credentials.value));
        if reply.result.Err? then Step(Err(reply.result.error), reply.state)
        else
          var response := reply.result.value;
          var marker := MsgChr(response);
          if marker == Some(env.settings.msgError) then
            Step(Err(AuthenticationError(Rejected(response))), reply.state)
          else if marker == Some(env.settings.msgRedirect) then
            AuthenticationRedirectSpec(env, reply.state, response)
          else
            Step(Ok(Authenticated), reply.state.(redirects := None))
  }

  const RedirectPrefix := "^mapi:"

  /** What follows `^mapi:` on the first line that starts with it. */
  function FirstRedirectLine(lines: seq<string>): (r: Option<string>)
    ensures r.None? <==> forall i :: 0 <= i < |lines| ==> !StartsWith(lines[i], RedirectPrefix)
    ensures r.Some? ==> exists i :: (0 <= i < |lines| && lines[i] == RedirectPrefix + r.value &&
      forall j :: 0 <= j < i ==> !StartsWith(lines[j], RedirectPrefix))
    decreases |lines|
  {
    if |lines| == 0 then None
    else if StartsWith(lines[0], RedirectPrefix) then
      assert lines[0] == RedirectPrefix + lines[0][|RedirectPrefix|..];
      Some(lines[0][|RedirectPrefix|..])
    else
      var r := FirstRedirectLine(lines[1..]);
      assert forall i :: 0 <= i < |lines| - 1 ==> lines[1..][i] == lines[i + 1];
      r
  }

  /** The redirect URI of a reply: the first of its lines matching `^\^mapi:(.*)`. */
  function FindRedirectUri(response: string): Option<string>
  {
    FirstRedirectLine(Split(response, '\n'))
  }

  /** `authentication_redirect`. A merovingian proxy redirect authenticates
      again on the same connection while the counter (nil counts as 0) is below
      5; a monetdb redirect points the configuration at the new server and
      reconnects. */
  function AuthenticationRedirectSpec(env: Env, s: State, response: string): Step<AuthOutcome>
    decreases Budget(s.redirects), 0
  {
    match FindRedirectUri(response)
    case None => Step(Err(AuthenticationError(RedirectNotSupported(response))), s)
    case Some(uri) =>
      match env.parseUri(uri)
      case None => Step(Err(AuthenticationError(InvalidRedirectUri(uri))), s)
      case Some(target) =>
        if target.scheme == Some("merovingian") then
          var count := s.redirects.GetOr(0);
          if count < 5 then AuthenticateSpec(env, s.(redirects := Some(count + 1)))
          else Step(Err(AuthenticationError(TooManyRedirects)), s.(redirects := Some(count)))
        else if target.scheme == Some("monetdb") then
          Step(Ok(Reconnected),
               s.(config := s.config.(host := target.host, port := target.port),
                  trace := s.trace + [Connect(target.host, target.port)]))
        else Step(Err(AuthenticationError(CannotAuthenticate)), s)
  }

  // --------------------------------------------------------------------
  // Properties of the handshake.

  lemma WritesAppend(trace: seq<Event>, e: Event)
    ensures Writes(trace + [e]) == Writes(trace) + (if e.Write? then 1 else 0)
  {
    assert (trace + [e])[..|trace|] == trace;
  }

  /** The negotiated authentication type is the client's most preferred type
      among those the server offers. */
  lemma NegotiatedTypeIsShared(env: Env, s: State)
    requires ObtainServerChallengeSpec(env, s).result.Ok?
    ensures var c := ObtainServerChallengeSpec(env, s).state.config;
      c.challenge.authTypes.Some? &&
      exists k :: FirstSharedAt(env.settings.authTypes, ServerAuthTypes(c.challenge.authTypes.value), k) &&
        c.authType == Some(env.settings.authTypes[k])
  {
  }

  /** An unsupported protocol fails before anything is written. */
  lemma ProtocolErrorWritesNothing(env: Env, s: State)
    requires |s.input| > 0
    requires var p := ParseChallenge(s.input[0]).protocol; p.None? || p.value !in env.settings.protocols
    ensures var r := AuthenticateSpec(env, s);
      r.result == Err(ProtocolError(ParseChallenge(s.input[0]).protocol)) &&
      r.state.trace == s.trace && r.state.input == s.input[1..]
  {
  }

  /** When the server offers no type the client supports, authentication
      fails before any credential is written, and the type is left nil. */
  lemma NoSharedAuthTypeWritesNothing(env: Env, s: State, list: string)
    requires |s.input| > 0
    requires var c := ParseChallenge(s.input[0]);
      c.protocol.Some? && c.protocol.value in env.settings.protocols && c.authTypes == Some(list)
    requires forall k :: 0 <= k < |env.settings.authTypes| ==> env.settings.authTypes[k] !in ServerAuthTypes(list)
    ensures var r := AuthenticateSpec(env, s);
      r.result == Err(AuthenticationError(UnsupportedAuthTypes(ServerAuthTypes(list)))) &&
      r.state.trace == s.trace && r.state.config.authType.None?
  {
    SelectAuthTypePriority(env.settings.authTypes, ServerAuthTypes(list));
  }

  /** The redirect reply names a merovingian URI. */
  predicate ProxyTarget(env: Env, response: string)
  {
    FindRedirectUri(response).Some? && env.parseUri(FindRedirectUri(response).value).Some? &&
    env.parseUri(FindRedirectUri(response).value).value.scheme == Some("merovingian")
  }

  /** How what authentication leaves behind relates to the state it started
      from: the trace only grows, by at most `extra` written lines, and a
      counter within its bound stays there. */
  predicate Bounded(s: State, t: State, extra: nat)
  {
    |s.trace| <= |t.trace| && t.trace[..|s.trace|] == s.trace &&
    Writes(t.trace) <= Writes(s.trace) + extra &&
    (s.redirects.GetOr(0) <= 5 ==> t.redirects.GetOr(0) <= 5)
  }

  /** The reply to the credentials line is a redirect. */
  predicate RedirectReply(env: Env, s: State)
  {
    var obtained := ObtainServerChallengeSpec(env, s);
    obtained.result.Ok? && AuthenticationString(env, obtained.state.config).Ok? &&
    var reply := ReadSpec(WriteSpec(obtained.state, AuthenticationString(env, obtained.state.config).value));
    reply.result.Ok? && MsgChr(reply.result.value) != Some(env.settings.msgError) &&
    MsgChr(reply.result.value) == Some(env.settings.msgRedirect)
  }

  lemma BoundedKeep(s: State, t: State, extra: nat)
    requires t.trace == s.trace && (s.redirects.GetOr(0) <= 5 ==> t.redirects.GetOr(0) <= 5)
    ensures Bounded(s, t, extra)
  {
  }

  lemma BoundedAppend(s: State, t: State, e: Event, extra: nat)
    requires extra >= 1 && t.trace == s.trace + [e]
    requires s.redirects.GetOr(0) <= 5 ==> t.redirects.GetOr(0) <= 5
    ensures Bounded(s, t, extra)
  {
    WritesAppend(s.trace, e);
  }

  lemma BoundedThen(s: State, m: State, t: State, e1: nat, e2: nat, extra: nat)
    requires Bounded(s, m, e1) && Bounded(m, t, e2) && e1 + e2 <= extra
    ensures Bounded(s, t, extra)
  {
    assert t.trace[..|s.trace|] == t.trace[..|m.trace|][..|s.trace|];
  }

  /** The trace only grows, the counter stays within its bound, and one
      authentication writes at most one credentials line per allowed attempt:
      the first one plus one per remaining merovingian redirect. */
  lemma {:induction false} AuthenticateBounded(env: Env, s: State)
    ensures Bounded(s, AuthenticateSpec(env, s).state, Budget(s.redirects) + 1)
    decreases Budget(s.redirects), 3
  {
    if RedirectReply(env, s) {
      AuthenticateBoundedRedirect(env, s);
    } else {
      AuthenticateBoundedDirect(env, s);
    }
  }

  lemma AuthenticateBoundedDirect(env: Env, s: State)
    requires !RedirectReply(env, s)
    ensures Bounded(s, AuthenticateSpec(env, s).state, Budget(s.redirects) + 1)
  {
    var extra := Budget(s.redirects) + 1;
    var obtained := ObtainServerChallengeSpec(env, s);
    if obtained.result.Err? {
      assert AuthenticateSpec(env, s).state == obtained.state;
      BoundedKeep(s, obtained.state, extra);
    } else {
      var credentials := AuthenticationString(env, obtained.state.config);
      if credentials.Err? {
        assert AuthenticateSpec(env, s).state == obtained.state;
        BoundedKeep(s, obtained.state, extra);
      } else {
        var written := WriteSpec(obtained.state, credentials.value);
        var reply := ReadSpec(written);
        if reply.result.Err? || MsgChr(reply.result.value) == Some(env.settings.msgError) {
          assert AuthenticateSpec(env, s).state == reply.state;
          BoundedAppend(s, reply.state, Write(credentials.value), extra);
        } else {
          assert AuthenticateSpec(env, s).state == reply.state.(redirects := None);
          BoundedAppend(s, reply.state.(redirects := None), Write(credentials.value), extra);
        }
      }
    }
  }

  lemma {:induction false} AuthenticateBoundedRedirect(env: Env, s: State)
    requires RedirectReply(env, s)
    ensures Bounded(s, AuthenticateSpec(env, s).state, Budget(s.redirects) + 1)
    decreases Budget(s.redirects), 2
  {
    var obtained := ObtainServerChallengeSpec(env, s);
    var credentials := AuthenticationString(env, obtained.state.config);
    var reply := ReadSpec(WriteSpec(obtained.state, credentials.value));
    assert AuthenticateSpec(env, s) == AuthenticationRedirectSpec(env, reply.state, reply.result.value);
    BoundedAppend(s, reply.state, Write(credentials.value), 1);
    RedirectBounded(env, reply.state, reply.result.value);
    BoundedThen(s, reply.state, AuthenticateSpec(env, s).state, 1, Budget(s.redirects), Budget(s.redirects) + 1);
  }

  lemma {:induction false} RedirectBounded(env: Env, s: State, response: string)
    ensures Bounded(s, AuthenticationRedirectSpec(env, s, response).state, Budget(s.redirects))
    decreases Budget(s.redirects), 1
  {
    if ProxyTarget(env, response) && s.redirects.GetOr(0) < 5 {
      RedirectBoundedProxy(env, s, response);
    } else {
      RedirectBoundedOther(env, s, response);
    }
  }

  lemma {:induction false} RedirectBoundedProxy(env: Env, s: State, response: string)
    requires ProxyTarget(env, response) && s.redirects.GetOr(0) < 5
    ensures Bounded(s, AuthenticationRedirectSpec(env, s, response).state, Budget(s.redirects))
    decreases Budget(s.redirects), 0
  {
    var count := s.redirects.GetOr(0);
    var next := s.(redirects := Some(count + 1));
    ProxyRedirectStep(env, s, response, count, next);
    AuthenticateBounded(env, next);
    BoundedKeep(s, next, 0);
    BoundedThen(s, next, AuthenticateSpec(env, next).state, 0, Budget(next.redirects) + 1, Budget(s.redirects));
  }

  lemma RedirectBoundedOther(env: Env, s: State, response: string)
    requires !(ProxyTarget(env, response) && s.redirects.GetOr(0) < 5)
    ensures Bounded(s, AuthenticationRedirectSpec(env, s, response).state, Budget(s.redirects))
  {
    var extra := Budget(s.redirects);
    match FindRedirectUri(response)
    case None =>
      BoundedKeep(s, s, extra);
    case Some(uri) =>
      match env.parseUri(uri)
      case None =>
        BoundedKeep(s, s, extra);
      case Some(target) =>
        if target.scheme == Some("merovingian") {
          BoundedKeep(s, s.(redirects := Some(s.redirects.GetOr(0))), extra);
        } else if target.scheme == Some("monetdb") {
          var moved := s.(config := s.config.(host := target.host, port := target.port),
                          trace := s.trace + [Connect(target.host, target.port)]);
          WritesAppend(s.trace, Connect(target.host, target.port));
          assert Bounded(s, moved, extra);
        } else {
          BoundedKeep(s, s, extra);
        }
  }

  /** Two states agree on the session flags. */
  predicate SameFlags(s: State, t: State)
  {
    t.timezoneSet == s.timezoneSet && t.replySizeSet == s.replySizeSet
  }

  /** Authentication, redirects included, leaves the session flags alone. */
  lemma {:induction false} AuthenticateKeepsFlags(env: Env, s: State)
    ensures SameFlags(s, AuthenticateSpec(env, s).state)
    decreases Budget(s.redirects), 2
  {
    if RedirectReply(env, s) {
      var obtained := ObtainServerChallengeSpec(env, s);
      var credentials := AuthenticationString(env, obtained.state.config);
      var reply := ReadSpec(WriteSpec(obtained.state, credentials.value));
      assert AuthenticateSpec(env, s) == AuthenticationRedirectSpec(env, reply.state, reply.result.value);
      RedirectKeepsFlags(env, reply.state, reply.result.value);
    } else {
      AuthenticateKeepsFlagsDirect(env, s);
    }
  }

  lemma AuthenticateKeepsFlagsDirect(env: Env, s: State)
    requires !RedirectReply(env, s)
    ensures SameFlags(s, AuthenticateSpec(env, s).state)
  {
    var obtained := ObtainServerChallengeSpec(env, s);
    if obtained.result.Ok? {
      var credentials := AuthenticationString(env, obtained.state.config);
      if credentials.Ok? {
        var reply := ReadSpec(WriteSpec(obtained.state, credentials.value));
        if reply.result.Err? || MsgChr(reply.result.value) == Some(env.settings.msgError) {
          assert AuthenticateSpec(env, s).state == reply.state;
        } else {
          assert AuthenticateSpec(env, s).state == reply.state.(redirects := None);
        }
      } else {
        assert AuthenticateSpec(env, s).state == obtained.state;
      }
    } else {
      assert AuthenticateSpec(env, s).state == obtained.state;
    }
  }

  lemma {:induction false} RedirectKeepsFlags(env: Env, s: State, response: string)
    ensures SameFlags(s, AuthenticationRedirectSpec(env, s, response).state)
    decreases Budget(s.redirects), 1
  {
    if ProxyTarget(env, response) && s.redirects.GetOr(0) < 5 {
      var count := s.redirects.GetOr(0);
      var next := s.(redirects := Some(count + 1));
      ProxyRedirectStep(env, s, response, count, next);
      AuthenticateKeepsFlags(env, next);
    }
  }

  /** Nothing is written unless negotiation succeeded, and the first line
      written is the credentials line of the negotiated configuration. */
  lemma FirstWriteIsCredentials(env: Env, s: State)
    requires AuthenticateSpec(env, s).state.trace != s.trace
    ensures var obtained := ObtainServerChallengeSpec(env, s);
      obtained.result.Ok? && AuthenticationString(env, obtained.state.config).Ok? &&
      |AuthenticateSpec(env, s).state.trace| > |s.trace| &&
      AuthenticateSpec(env, s).state.trace[|s.trace|] == Write(AuthenticationString(env, obtained.state.config).value)
  {
    AuthenticateBounded(env, s);
    var obtained := ObtainServerChallengeSpec(env, s);
    if obtained.result.Ok? {
      var credentials := AuthenticationString(env, obtained.state.config);
      if credentials.Ok? {
        var written := WriteSpec(obtained.state, credentials.value);
        var reply := ReadSpec(written);
        if reply.result.Ok? && MsgChr(reply.result.value) != Some(env.settings.msgError)
           && MsgChr(reply.result.value) == Some(env.settings.msgRedirect) {
          RedirectBounded(env, reply.state, reply.result.value);
          var t := AuthenticateSpec(env, s).state.trace;
          assert t[..|written.trace|][|s.trace|] == written.trace[|s.trace|];
        }
      }
    }
  }

  /** An error reply raises an authentication error carrying the reply; the
      credentials line is the only thing written. */
  lemma ErrorReplyRejected(env: Env, s: State)
    requires ObtainServerChallengeSpec(env, s).result.Ok?
    requires AuthenticationString(env, ObtainServerChallengeSpec(env, s).state.config).Ok?
    requires |s.input| >= 2 && MsgChr(s.input[1]) == Some(env.settings.msgError)
    ensures var r := AuthenticateSpec(env, s);
      r.result == Err(AuthenticationError(Rejected(s.input[1]))) &&
      r.state.trace == s.trace + [Write(AuthenticationString(env, ObtainServerChallengeSpec(env, s).state.config).value)] &&
      r.state.input == s.input[2..]
  {
  }

  /** A reply with neither marker (the empty reply included) is a successful
      login, and the redirect counter is cleared. */
  lemma OtherReplyAuthenticates(env: Env, s: State)
    requires ObtainServerChallengeSpec(env, s).result.Ok?
    requires AuthenticationString(env, ObtainServerChallengeSpec(env, s).state.config).Ok?
    requires |s.input| >= 2
    requires MsgChr(s.input[1]) != Some(env.settings.msgError) && MsgChr(s.input[1]) != Some(env.settings.msgRedirect)
    ensures var r := AuthenticateSpec(env, s);
      r.result == Ok(Authenticated) && r.state.redirects.None? &&
      r.state.trace == s.trace + [Write(AuthenticationString(env, ObtainServerChallengeSpec(env, s).state.config).value)] &&
      r.state.input == s.input[2..]
  {
  }

  /** A redirect reply, whatever its scheme, is handed to the redirect
      handler in the state just after the credentials line. */
  lemma RedirectReplyHandled(env: Env, s: State)
    requires ObtainServerChallengeSpec(env, s).result.Ok?
    requires AuthenticationString(env, ObtainServerChallengeSpec(env, s).state.config).Ok?
    requires |s.input| >= 2
    requires MsgChr(s.input[1]) != Some(env.settings.msgError) && MsgChr(s.input[1]) == Some(env.settings.msgRedirect)
    ensures var o := ObtainServerChallengeSpec(env, s).state;
      AuthenticateSpec(env, s) ==
      AuthenticationRedirectSpec(env, o.(input := s.input[2..],
                                         trace := s.trace + [Write(AuthenticationString(env, o.config).value)]),
                                 s.input[1])
  {
  }

  /** A `^mapi:monetdb://` reply to the credentials line ends the login by
      reconnecting to the host and port it names. */
  lemma MonetdbRedirectReplyReconnects(env: Env, s: State, uri: string, target: Uri)
    requires ObtainServerChallengeSpec(env, s).result.Ok?
    requires AuthenticationString(env, ObtainServerChallengeSpec(env, s).state.config).Ok?
    requires |s.input| >= 2
    requires MsgChr(s.input[1]) != Some(env.settings.msgError) && MsgChr(s.input[1]) == Some(env.settings.msgRedirect)
    requires FindRedirectUri(s.input[1]) == Some(uri) && env.parseUri(uri) == Some(target)
    requires target.scheme == Some("monetdb")
    ensures var o := ObtainServerChallengeSpec(env, s).state;
      var r := AuthenticateSpec(env, s);
      r.result == Ok(Reconnected) &&
      r.state.config == o.config.(host := target.host, port := target.port) &&
      r.state.trace == s.trace + [Write(AuthenticationString(env, o.config).value), Connect(target.host, target.port)] &&
      r.state.input == s.input[2..] && r.state.redirects == s.redirects
  {
    var o := ObtainServerChallengeSpec(env, s).state;
    var line := AuthenticationString(env, o.config).value;
    var answered := o.(input := s.input[2..], trace := s.trace + [Write(line)]);
    RedirectReplyHandled(env, s);
    DirectRedirectReconnects(env, answered, s.input[1], uri, target);
    assert answered.trace + [Connect(target.host, target.port)] ==
      s.trace + [Write(line), Connect(target.host, target.port)];
  }

  /** A monetdb redirect overwrites host and port with the target's and
      reconnects; the redirect counter is left as it was. */
  lemma DirectRedirectReconnects(env: Env, s: State, response: string, uri: string, target: Uri)
    requires FindRedirectUri(response) == Some(uri) && env.parseUri(uri) == Some(target)
    requires target.scheme == Some("monetdb")
    ensures AuthenticationRedirectSpec(env, s, response) ==
      Step(Ok(Reconnected), s.(config := s.config.(host := target.host, port := target.port),
                               trace := s.trace + [Connect(target.host, target.port)]))
  {
  }

  /** The redirect replies that fail: no `^mapi:` line, a URI that does not
      parse, or a scheme that is neither merovingian nor monetdb. */
  lemma RedirectFailures(env: Env, s: State, response: string)
    ensures FindRedirectUri(response).None? ==>
      AuthenticationRedirectSpec(env, s, response) == Step(Err(AuthenticationError(RedirectNotSupported(response))), s)
    ensures FindRedirectUri(response).Some? && env.parseUri(FindRedirectUri(response).value).None? ==>
      AuthenticationRedirectSpec(env, s, response) ==
        Step(Err(AuthenticationError(InvalidRedirectUri(FindRedirectUri(response).value))), s)
    ensures (FindRedirectUri(response).Some? && env.parseUri(FindRedirectUri(response).value).Some? &&
      env.parseUri(FindRedirectUri(response).value).value.scheme !in {Some("merovingian"), Some("monetdb")}) ==>
      AuthenticationRedirectSpec(env, s, response) == Step(Err(AuthenticationError(CannotAuthenticate)), s)
  {
  }

  // --------------------------------------------------------------------
  // The merovingian proxy loop.

  /** `n` rounds of the same challenge line followed by the same reply. */
  function Rounds(challenge: string, reply: string, n: nat): seq<string>
  {
    if n == 0 then [] else [challenge, reply] + Rounds(challenge, reply, n - 1)
  }

  lemma RoundsUnfold(challenge: string, reply: string, n: nat, rest: seq<string>)
    requires n >= 1
    ensures Rounds(challenge, reply, n) + rest == [challenge, reply] + (Rounds(challenge, reply, n - 1) + rest)
  {
    assert Rounds(challenge, reply, n) == [challenge, reply] + Rounds(challenge, reply, n - 1);
  }

  lemma {:induction false} RoundsSnoc(challenge: string, reply: string, n: nat, rounds: nat, rest: seq<string>)
    requires rounds == n + 1
    ensures Rounds(challenge, reply, rounds) + rest == Rounds(challenge, reply, n) + ([challenge, reply] + rest)
    decreases n
  {
    if n > 0 {
      RoundsSnoc(challenge, reply, n - 1, n, rest);
      RoundsUnfold(challenge, reply, rounds, rest);
      RoundsUnfold(challenge, reply, n, [challenge, reply] + rest);
    }
  }

  /** `n` writes of the same line. */
  function WriteN(line: string, n: nat): seq<Event>
  {
    if n == 0 then [] else [Write(line)] + WriteN(line, n - 1)
  }

  lemma WriteNUnfold(trace: seq<Event>, line: string, n: nat)
    requires n >= 1
    ensures trace + [Write(line)] + WriteN(line, n - 1) == trace + WriteN(line, n)
  {
    assert WriteN(line, n) == [Write(line)] + WriteN(line, n - 1);
  }

  lemma {:induction false} WriteNSnoc(line: string, n: nat)
    ensures WriteN(line, n) + [Write(line)] == WriteN(line, n + 1)
    decreases n
  {
    if n > 0 {
      WriteNSnoc(line, n - 1);
      assert WriteN(line, n) + [Write(line)] == [Write(line)] + (WriteN(line, n - 1) + [Write(line)]);
    }
  }

  /** A negotiated configuration that passes the protocol check, has a type
      and yields a credentials line. */
  predicate Ready(env: Env, c: Config)
  {
    AssertSupportedProtocol(env.settings, c).Ok? && c.challenge.authTypes.Some? &&
    c.authType.Some? && AuthenticationString(env, c).Ok?
  }

  /** A challenge line this configuration negotiates and answers without failing. */
  predicate ProxyReady(env: Env, config: Config, challenge: string)
  {
    Ready(env, Negotiated(env.settings, config, challenge))
  }

  /** A reply that redirects to a merovingian proxy. */
  predicate IsProxyRedirect(env: Env, reply: string)
  {
    MsgChr(reply) != Some(env.settings.msgError) && MsgChr(reply) == Some(env.settings.msgRedirect) &&
    ProxyTarget(env, reply)
  }

  /** Merging the same challenge line twice negotiates the same configuration. */
  lemma NegotiatedAgain(settings: Settings, config: Config, challenge: string)
    ensures Negotiated(settings, Negotiated(settings, config, challenge), challenge) ==
      Negotiated(settings, config, challenge)
  {
  }

  /** The credentials line for a configuration ("" when it cannot be built). */
  function CredentialsLine(env: Env, c: Config): string
  {
    var line := AuthenticationString(env, c);
    if line.Ok? then line.value else ""
  }

  /** The state after the challenge has been negotiated to `c` and answered
      with `line`, with `rest` left to read. */
  function Answered(s: State, c: Config, line: string, rest: seq<string>): State
  {
    s.(config := c, input := rest, trace := s.trace + [Write(line)])
  }

  /** The state after `k` rounds negotiated to `c` and answered with `line`:
      the line written `k` times, `rest` left to read and the counter at
      `redirects`. */
  function Proxied(s: State, c: Config, line: string, rest: seq<string>, redirects: Option<nat>, k: nat): State
  {
    s.(config := c, input := rest, redirects := redirects, trace := s.trace + WriteN(line, k))
  }

  // The round lemmas below take the states, inputs, counters and write
  // counts they relate as parameters, pinned by equalities in `requires`
  // (`k' == k + 1`, `after == ...`). A caller then passes terms it already
  // has, so the solver never has to match `k + 1` or a rebuilt state against
  // another term; this keeps each proof obligation small.

  lemma ProxiedOnce(s: State, c: Config, line: string, later: seq<string>, rest: seq<string>,
                    r1: Option<nat>, r2: Option<nat>, k: nat)
    requires later == rest && r1 == r2 && k == 1
    ensures Answered(s, c, line, later).(redirects := r1) == Proxied(s, c, line, rest, r2, k)
  {
    assert WriteN(line, 1) == [Write(line)];
  }

  lemma ProxiedAgain(s: State, c: Config, line: string, later: seq<string>, rest: seq<string>,
                     count: Option<nat>, redirects: Option<nat>, k: nat, k': nat)
    requires k' == k + 1
    ensures Proxied(Answered(s, c, line, later).(redirects := count), c, line, rest, redirects, k) ==
      Proxied(s, c, line, rest, redirects, k')
  {
    WriteNUnfold(s.trace, line, k');
  }

  lemma ProxiedThenAnswered(s: State, c: Config, line: string, mid: seq<string>, rest: seq<string>,
                            r1: Option<nat>, r2: Option<nat>, k: nat, k': nat)
    requires k' == k + 1
    ensures Answered(Proxied(s, c, line, mid, r1, k), c, line, rest).(redirects := r2) ==
      Proxied(s, c, line, rest, r2, k')
  {
    WriteNSnoc(line, k);
    assert s.trace + WriteN(line, k) + [Write(line)] == s.trace + WriteN(line, k + 1);
  }

  lemma ObtainReady(env: Env, s: State, c: Config)
    requires |s.input| > 0 && c == Negotiated(env.settings, s.config, s.input[0]) && Ready(env, c)
    ensures ObtainServerChallengeSpec(env, s) == Step(Ok(()), s.(config := c, input := s.input[1..]))
  {
  }

  /** One round against a proxy: the credentials are written and the redirect handled. */
  lemma ProxyRound(env: Env, s: State, challenge: string, reply: string, rest: seq<string>, c: Config, line: string)
    requires c == Negotiated(env.settings, s.config, challenge) && Ready(env, c) && line == CredentialsLine(env, c)
    requires IsProxyRedirect(env, reply) && s.input == [challenge, reply] + rest
    ensures AuthenticateSpec(env, s) == AuthenticationRedirectSpec(env, Answered(s, c, line, rest), reply)
  {
    ObtainReady(env, s, c);
  }

  /** The last round: the credentials are written and the reply accepted. */
  lemma AcceptedRound(env: Env, s: State, challenge: string, accepted: string, rest: seq<string>,
                      c: Config, line: string, after: State)
    requires c == Negotiated(env.settings, s.config, challenge) && Ready(env, c) && line == CredentialsLine(env, c)
    requires MsgChr(accepted) != Some(env.settings.msgError) && MsgChr(accepted) != Some(env.settings.msgRedirect)
    requires s.input == [challenge, accepted] + rest
    requires after == Answered(s, c, line, rest).(redirects := None)
    ensures AuthenticateSpec(env, s) == Step(Ok(Authenticated), after)
  {
    ObtainReady(env, s, c);
  }

  /** While the counter is below 5 a proxy redirect counts itself and authenticates again. */
  lemma ProxyRedirectStep(env: Env, s: State, reply: string, count: nat, after: State)
    requires ProxyTarget(env, reply) && s.redirects.GetOr(0) == count < 5
    requires after == s.(redirects := Some(count + 1))
    ensures AuthenticationRedirectSpec(env, s, reply) == AuthenticateSpec(env, after)
  {
    match FindRedirectUri(reply)
    case Some(uri) =>
      match env.parseUri(uri)
      case Some(target) =>
        assert target.scheme == Some("merovingian");
  }

  /** At 5 the proxy redirect is refused. */
  lemma ProxyRedirectRefused(env: Env, s: State, reply: string)
    requires ProxyTarget(env, reply) && s.redirects.GetOr(0) >= 5
    ensures AuthenticationRedirectSpec(env, s, reply) ==
      Step(Err(AuthenticationError(TooManyRedirects)), s.(redirects := Some(s.redirects.GetOr(0))))
  {
    match FindRedirectUri(reply)
    case Some(uri) =>
      match env.parseUri(uri)
      case Some(target) =>
        assert target.scheme == Some("merovingian");
  }

  lemma ProxyRoundAgain(env: Env, s: State, challenge: string, reply: string, rest: seq<string>,
                        c: Config, line: string, count: nat, after: State)
    requires c == Negotiated(env.settings, s.config, challenge) && Ready(env, c) && line == CredentialsLine(env, c)
    requires IsProxyRedirect(env, reply) && s.input == [challenge, reply] + rest
    requires s.redirects.GetOr(0) == count < 5
    requires after == Answered(s, c, line, rest).(redirects := Some(count + 1))
    ensures AuthenticateSpec(env, s) == AuthenticateSpec(env, after)
  {
    ProxyRound(env, s, challenge, reply, rest, c, line);
    ProxyRedirectStep(env, Answered(s, c, line, rest), reply, count, after);
  }

  lemma ProxyRoundRefused(env: Env, s: State, challenge: string, reply: string, rest: seq<string>,
                          c: Config, line: string, count: nat, after: State)
    requires c == Negotiated(env.settings, s.config, challenge) && Ready(env, c) && line == CredentialsLine(env, c)
    requires IsProxyRedirect(env, reply) && s.input == [challenge, reply] + rest
    requires s.redirects.GetOr(0) == count >= 5
    requires after == Answered(s, c, line, rest).(redirects := Some(count))
    ensures AuthenticateSpec(env, s) == Step(Err(AuthenticationError(TooManyRedirects)), after)
  {
    var a := Answered(s, c, line, rest);
    assert after == a.(redirects := Some(a.redirects.GetOr(0)));
    ProxyRound(env, s, challenge, reply, rest, c, line);
    ProxyRedirectRefused(env, a, reply);
  }

  /** One proxy round as a function of the state alone: the configuration
      becomes `c`, `line` is written, the challenge and the reply are
      consumed, and the redirect is counted. */
  function NextRound(t: State, c: Config, line: string): State
  {
    Answered(t, c, line, if |t.input| >= 2 then t.input[2..] else []).(redirects := Some(t.redirects.GetOr(0) + 1))
  }

  /** `t` is `k` proxy rounds away from the input `rest`, and the counter
      reaches `total` after them. */
  predicate OnRounds(challenge: string, reply: string, rest: seq<string>, total: nat, t: State, k: nat)
  {
    t.input == Rounds(challenge, reply, k) + rest && t.redirects.GetOr(0) + k == total
  }

  /** ... and the challenge negotiates `t`'s configuration to `c`. */
  predicate RoundsLeft(settings: Settings, challenge: string, reply: string, c: Config, rest: seq<string>,
                       total: nat, t: State, k: nat)
  {
    Negotiated(settings, t.config, challenge) == c && OnRounds(challenge, reply, rest, total, t, k)
  }

  lemma NextRoundOn(t: State, challenge: string, reply: string, c: Config, line: string,
                    rest: seq<string>, total: nat, k: nat)
    requires 1 <= k && OnRounds(challenge, reply, rest, total, t, k)
    ensures t.input == [challenge, reply] + (Rounds(challenge, reply, k - 1) + rest)
    ensures NextRound(t, c, line) ==
      Answered(t, c, line, Rounds(challenge, reply, k - 1) + rest).(redirects := Some(t.redirects.GetOr(0) + 1))
    ensures OnRounds(challenge, reply, rest, total, NextRound(t, c, line), k - 1)
  {
    var later := Rounds(challenge, reply, k - 1) + rest;
    RoundsUnfold(challenge, reply, k, rest);
    assert t.input[2..] == later;
  }

  /** A proxy round leaves the outcome of authentication unchanged. */
  lemma OneProxyRound(env: Env, t: State, challenge: string, reply: string, c: Config, line: string,
                      rest: seq<string>, total: nat, k: nat)
    requires 1 <= k && total <= 5 && IsProxyRedirect(env, reply)
    requires Negotiated(env.settings, c, challenge) == c && Ready(env, c) && line == CredentialsLine(env, c)
    requires RoundsLeft(env.settings, challenge, reply, c, rest, total, t, k)
    ensures RoundsLeft(env.settings, challenge, reply, c, rest, total, NextRound(t, c, line), k - 1)
    ensures AuthenticateSpec(env, t) == AuthenticateSpec(env, NextRound(t, c, line))
  {
    NextRoundOn(t, challenge, reply, c, line, rest, total, k);
    ProxyRoundAgain(env, t, challenge, reply, Rounds(challenge, reply, k - 1) + rest, c, line,
                    t.redirects.GetOr(0), NextRound(t, c, line));
  }

  /** `n` applications of `next`. */
  function Iterate<S>(next: S -> S, s: S, n: nat): S
  {
    if n == 0 then s else Iterate(next, next(s), n - 1)
  }

  /** A function that `next` leaves unchanged while `ok` counts down keeps
      its value over `n` steps. */
  lemma {:induction false} IterateKeeps<S, R>(f: S -> R, next: S -> S, ok: (S, nat) -> bool, s: S, n: nat)
    requires ok(s, n)
    requires forall t, k {:trigger next(t), ok(t, k)} :: 1 <= k && ok(t, k) ==> ok(next(t), k - 1) && f(t) == f(next(t))
    ensures f(s) == f(Iterate(next, s, n))
    decreases n
  {
    if n > 0 {
      IterateKeeps(f, next, ok, next(s), n - 1);
    }
  }

  /** `n` proxy rounds lead to the state `Proxied` describes. */
  lemma {:induction false} IterateRounds(s: State, challenge: string, reply: string, c: Config, line: string,
                                         rest: seq<string>, total: nat, n: nat, next: State -> State)
    requires 1 <= n && forall t :: next(t) == NextRound(t, c, line)
    requires OnRounds(challenge, reply, rest, total, s, n)
    ensures Iterate(next, s, n) == Proxied(s, c, line, rest, Some(total), n)
    decreases n
  {
    var later := Rounds(challenge, reply, n - 1) + rest;
    var count := s.redirects.GetOr(0);
    NextRoundOn(s, challenge, reply, c, line, rest, total, n);
    if n == 1 {
      assert later == rest;
      ProxiedOnce(s, c, line, later, rest, Some(count + 1), Some(total), n);
    } else {
      ProxiedAgain(s, c, line, later, rest, Some(count + 1), Some(total), n - 1, n);
      IterateRounds(next(s), challenge, reply, c, line, rest, total, n - 1, next);
    }
  }

  /** `n` proxy redirects the counter allows bring authentication back to
      its start, on the remaining input, with the counter at `total` and one
      credentials line written per round. */
  lemma ProxyRedirectsRestart(env: Env, s: State, challenge: string, reply: string, c: Config, line: string,
                              n: nat, total: nat, rest: seq<string>)
    requires n >= 1 && total <= 5 && IsProxyRedirect(env, reply)
    requires Negotiated(env.settings, c, challenge) == c && Ready(env, c) && line == CredentialsLine(env, c)
    requires RoundsLeft(env.settings, challenge, reply, c, rest, total, s, n)
    ensures AuthenticateSpec(env, s) == AuthenticateSpec(env, Proxied(s, c, line, rest, Some(total), n))
  {
    var next := (t: State) => NextRound(t, c, line);
    var ok := (t: State, k: nat) => RoundsLeft(env.settings, challenge, reply, c, rest, total, t, k);
    var f := (t: State) => AuthenticateSpec(env, t);
    forall t: State, k: nat | 1 <= k && RoundsLeft(env.settings, challenge, reply, c, rest, total, t, k)
      ensures RoundsLeft(env.settings, challenge, reply, c, rest, total, NextRound(t, c, line), k - 1)
      ensures AuthenticateSpec(env, t) == AuthenticateSpec(env, NextRound(t, c, line))
    {
      OneProxyRound(env, t, challenge, reply, c, line, rest, total, k);
    }
    assert forall t, k {:trigger next(t), ok(t, k)} :: 1 <= k && ok(t, k) ==> ok(next(t), k - 1) && f(t) == f(next(t));
    IterateKeeps(f, next, ok, s, n);
    IterateRounds(s, challenge, reply, c, line, rest, total, n, next);
  }

  /** Redirect after redirect, the attempt after the last one the counter
      allows fails with "too many redirects": from a fresh connection that is
      the sixth redirect, after six credentials lines. */
  lemma ProxyRedirectsExhausted(env: Env, s: State, challenge: string, reply: string,
                                rounds: nat, rest: seq<string>)
    requires s.redirects.GetOr(0) <= 5 && s.redirects.GetOr(0) + rounds == 6
    requires ProxyReady(env, s.config, challenge) && IsProxyRedirect(env, reply)
    requires s.input == Rounds(challenge, reply, rounds) + rest
    ensures var c := Negotiated(env.settings, s.config, challenge);
      AuthenticateSpec(env, s) ==
        Step(Err(AuthenticationError(TooManyRedirects)), Proxied(s, c, CredentialsLine(env, c), rest, Some(5), rounds))
  {
    var c := Negotiated(env.settings, s.config, challenge);
    var line := CredentialsLine(env, c);
    var n := rounds - 1;
    var mid := [challenge, reply] + rest;
    var after := Proxied(s, c, line, rest, Some(5), rounds);
    NegotiatedAgain(env.settings, s.config, challenge);
    RoundsSnoc(challenge, reply, n, rounds, rest);
    if n == 0 {
      assert s.input == mid;
      ProxiedOnce(s, c, line, rest, rest, Some(5), Some(5), rounds);
      ProxyRoundRefused(env, s, challenge, reply, rest, c, line, 5, after);
    } else {
      assert RoundsLeft(env.settings, challenge, reply, c, mid, 5, s, n);
      var t := Proxied(s, c, line, mid, Some(5), n);
      ProxiedThenAnswered(s, c, line, mid, rest, Some(5), Some(5), n, rounds);
      ProxyRoundRefused(env, t, challenge, reply, rest, c, line, 5, after);
      ProxyRedirectsRestart(env, s, challenge, reply, c, line, n, 5, mid);
    }
  }

  /** After the proxy rounds, the accepted reply ends the handshake. */
  lemma AcceptedAfterRounds(env: Env, s: State, challenge: string, accepted: string, c: Config, line: string,
                            n: nat, total: nat, rest: seq<string>)
    requires Negotiated(env.settings, c, challenge) == c && Ready(env, c) && line == CredentialsLine(env, c)
    requires MsgChr(accepted) != Some(env.settings.msgError) && MsgChr(accepted) != Some(env.settings.msgRedirect)
    ensures AuthenticateSpec(env, Proxied(s, c, line, [challenge, accepted] + rest, Some(total), n)) ==
      Step(Ok(Authenticated), Proxied(s, c, line, rest, None, n + 1))
  {
    var t := Proxied(s, c, line, [challenge, accepted] + rest, Some(total), n);
    ProxiedThenAnswered(s, c, line, [challenge, accepted] + rest, rest, Some(total), None, n, n + 1);
    AcceptedRound(env, t, challenge, accepted, rest, c, line, Proxied(s, c, line, rest, None, n + 1));
  }

  lemma ProxyRedirectsThenAccepted(env: Env, s: State, challenge: string, reply: string,
                                   accepted: string, n: nat, total: nat, rest: seq<string>)
    requires n >= 1 && s.redirects.GetOr(0) + n == total <= 5
    requires ProxyReady(env, s.config, challenge) && IsProxyRedirect(env, reply)
    requires MsgChr(accepted) != Some(env.settings.msgError) && MsgChr(accepted) != Some(env.settings.msgRedirect)
    requires s.input == Rounds(challenge, reply, n) + ([challenge, accepted] + rest)
    ensures var c := Negotiated(env.settings, s.config, challenge);
      AuthenticateSpec(env, s) == Step(Ok(Authenticated), Proxied(s, c, CredentialsLine(env, c), rest, None, n + 1))
  {
    var c := Negotiated(env.settings, s.config, challenge);
    var line := CredentialsLine(env, c);
    NegotiatedAgain(env.settings, s.config, challenge);
    assert RoundsLeft(env.settings, challenge, reply, c, [challenge, accepted] + rest, total, s, n);
    AcceptedAfterRounds(env, s, challenge, accepted, c, line, n, total, rest);
    ProxyRedirectsRestart(env, s, challenge, reply, c, line, n, total, [challenge, accepted] + rest);
  }

  /** As long as the counter allows, a proxy redirect is followed by
      authenticating again; the last reply accepts the login, the counter is
      cleared, and one credentials line per round has been written. */
  lemma ProxyRedirectsWithinBudget(env: Env, s: State, challenge: string, reply: string,
                                   accepted: string, n: nat, rest: seq<string>)
    requires s.redirects.GetOr(0) + n <= 5
    requires ProxyReady(env, s.config, challenge) && IsProxyRedirect(env, reply)
    requires MsgChr(accepted) != Some(env.settings.msgError) && MsgChr(accepted) != Some(env.settings.msgRedirect)
    requires s.input == Rounds(challenge, reply, n) + ([challenge, accepted] + rest)
    ensures var c := Negotiated(env.settings, s.config, challenge);
      AuthenticateSpec(env, s) == Step(Ok(Authenticated), Proxied(s, c, CredentialsLine(env, c), rest, None, n + 1))
  {
    if n == 0 {
      var c := Negotiated(env.settings, s.config, challenge);
      var line := CredentialsLine(env, c);
      assert s.input == [challenge, accepted] + rest;
      ProxiedOnce(s, c, line, rest, rest, None, None, n + 1);
      AcceptedRound(env, s, challenge, accepted, rest, c, line, Proxied(s, c, line, rest, None, n + 1));
    } else {
      ProxyRedirectsThenAccepted(env, s, challenge, reply, accepted, n, s.redirects.GetOr(0) + n, rest);
    }
  }
}
