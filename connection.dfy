/** `MonetDB::Connection::Setup` as the methods of a connection object:
    each one updates the object's fields in place, and its contract says
    that the result it returns and the fields it leaves behind are exactly
    what the corresponding function of `Handshake` or `Session` computes
    from the fields it started with. */
module Setup {
  import opened Types
  import opened ChallengeParser
  import opened Negotiation
  import opened Credentials
  import opened Handshake
  import opened Session

  class Connection {
    const env: Env
    var config: Config
    var input: seq<string>                    // reply lines the socket will still deliver
    var trace: seq<Event>                     // what has been sent, in order
    var authenticationRedirects: Option<nat>
    var timezoneIntervalSet: bool
    var replySizeSet: bool

    /** The fields, as the value the specification functions work on. */
    ghost function Snapshot(): State
      reads this
    {
      State(config, input, trace, authenticationRedirects, timezoneIntervalSet, replySizeSet)
    }

    /** A connection that has sent nothing, with no redirect counter and
        neither session option set. */
    constructor (env: Env, config: Config, input: seq<string>)
      ensures this.env == env
      ensures Snapshot() == State(config, input, [], None, false, false)
    {
      this.env := env;
      this.config := config;
      this.input := input;
      trace := [];
      authenticationRedirects := None;
      timezoneIntervalSet := false;
      replySizeSet := false;
    }

    /** `read`. */
    method Read() returns (r: Result<string>)
      modifies this
      ensures Step(r, Snapshot()) == ReadSpec(old(Snapshot()))
    {
      if |input| == 0 {
        r := Err(EndOfInput);
      } else {
        r := Ok(input[0]);
        input := input[1..];
      }
    }

    /** `write`. */
    method Write(line: string)
      modifies this
      ensures Snapshot() == WriteSpec(old(Snapshot()), line)
    {
      trace := trace + [Event.Write(line)];
    }

    /** `server_challenge`: the next line, split into the challenge keys. */
    method ServerChallenge() returns (r: Result<Challenge>)
      modifies this
      ensures var line := ReadSpec(old(Snapshot()));
        Snapshot() == line.state &&
        r == (if line.result.Ok? then Ok(ParseChallenge(line.result.value)) else Err(line.result.error))
    {
      var line := Read();
      if line.Err? {
        r := Err(line.error);
      } else {
        r := Ok(ParseChallenge(line.value));
      }
    }

    /** `assert_supported_protocol!`. */
    method AssertSupportedProtocol() returns (r: Result<()>)
      ensures r.Ok? <==> config.challenge.protocol.Some? && config.challenge.protocol.value in env.settings.protocols
      ensures r.Err? ==> r.error == ProtocolError(config.challenge.protocol)
    {
      r := Negotiation.AssertSupportedProtocol(env.settings, config);
    }

    /** `select_supported_auth_type!`. */
    method SelectSupportedAuthType() returns (r: Result<()>)
      modifies this
      ensures Step(r, Snapshot()) == SelectSupportedAuthTypeSpec(env.settings, old(Snapshot()))
    {
      match config.challenge.authTypes
      case None =>
        r := Err(NilField("auth_types"));
      case Some(list) =>
        var offered := ServerAuthTypes(list);
        var chosen := SelectAuthType(env.settings.authTypes, offered);
        config := config.(authType := chosen);
        if chosen.None? {
          r := Err(AuthenticationError(UnsupportedAuthTypes(offered)));
        } else {
          r := Ok(());
        }
    }

    /** `obtain_server_challenge!`: merge the challenge into the
        configuration, then check the protocol and choose the type. */
    method ObtainServerChallenge() returns (r: Result<()>)
      modifies this
      ensures Step(r, Snapshot()) == ObtainServerChallengeSpec(env, old(Snapshot()))
    {
      var challenge := ServerChallenge();
      if challenge.Err? {
        r := Err(challenge.error);
        return;
      }
      config := config.(challenge := challenge.value);
      r := AssertSupportedProtocol();
      if r.Ok? {
        r := SelectSupportedAuthType();
      }
    }

    /** `authenticate`. */
    method Authenticate() returns (r: Result<AuthOutcome>)
      modifies this
      ensures Step(r, Snapshot()) == AuthenticateSpec(env, old(Snapshot()))
      decreases Budget(authenticationRedirects), 1
    {
      var obtained := ObtainServerChallenge();
      if obtained.Err? {
        r := Err(obtained.error);
        return;
      }
      var credentials := AuthenticationString(env, config);
      if credentials.Err? {
        r := Err(credentials.error);
        return;
      }
      Write(credentials.value);
      var response := Read();
      if response.Err? {
        r := Err(response.error);
        return;
      }
      var marker := MsgChr(response.value);
      if marker == Some(env.settings.msgError) {
        r := Err(AuthenticationError(Rejected(response.value)));
      } else if marker == Some(env.settings.msgRedirect) {
        r := AuthenticationRedirect(response.value);
      } else {
        authenticationRedirects := None;
        r := Ok(Authenticated);
      }
    }

    /** `authentication_redirect`. */
    method AuthenticationRedirect(response: string) returns (r: Result<AuthOutcome>)
      modifies this
      ensures Step(r, Snapshot()) == AuthenticationRedirectSpec(env, old(Snapshot()), response)
      decreases Budget(authenticationRedirects), 0
    {
      ghost var s0 := Snapshot();
      var uri := FindRedirectUri(response);
      if uri.None? {
        r := Err(AuthenticationError(RedirectNotSupported(response)));
        return;
      }
      var target := env.parseUri(uri.value);
      if target.None? {
        r := Err(AuthenticationError(InvalidRedirectUri(uri.value)));
        return;
      }
      var scheme := target.value.scheme;
      if scheme == Some("merovingian") {
        assert ProxyTarget(env, response);
        var count := authenticationRedirects.GetOr(0);
        if count < 5 {
          authenticationRedirects := Some(count + 1);
          ProxyRedirectStep(env, s0, response, count, Snapshot());
          r := Authenticate();
        } else {
          authenticationRedirects := Some(count);
          ProxyRedirectRefused(env, s0, response);
          r := Err(AuthenticationError(TooManyRedirects));
        }
      } else if scheme == Some("monetdb") {
        config := config.(host := target.value.host, port := target.value.port);
        trace := trace + [Connect(target.value.host, target.value.port)];
        r := Ok(Reconnected);
      } else {
        r := Err(AuthenticationError(CannotAuthenticate));
      }
    }

    /** `set_timezone_interval`, given the local offset from GMT in seconds. */
    method SetTimezoneInterval(gmtOffset: int) returns (r: Result<bool>)
      modifies this
      ensures Step(r, Snapshot()) == SetTimezoneIntervalSpec(env, gmtOffset, old(Snapshot()))
    {
      if timezoneIntervalSet {
        return Ok(false);
      }
      Write(TimezoneCommand(gmtOffset));
      var response := Read();
      if response.Err? {
        return Err(response.error);
      }
      if IsErrorReply(env.settings, response.value) {
        return Err(CommandError(response.value));
      }
      timezoneIntervalSet := true;
      r := Ok(true);
    }

    /** `set_reply_size`. */
    method SetReplySize() returns (r: Result<bool>)
      modifies this
      ensures Step(r, Snapshot()) == SetReplySizeSpec(env, old(Snapshot()))
    {
      if replySizeSet {
        return Ok(false);
      }
      Write(ReplySizeCommand(env.settings));
      var response := Read();
      if response.Err? {
        return Err(response.error);
      }
      if IsErrorReply(env.settings, response.value) {
        return Err(CommandError(response.value));
      }
      replySizeSet := true;
      r := Ok(true);
    }

    /** `setup`. */
    method Setup(gmtOffset: int) returns (r: Result<bool>)
      modifies this
      ensures Step(r, Snapshot()) == SetupSpec(env, gmtOffset, old(Snapshot()))
    {
      var authenticated := Authenticate();
      if authenticated.Err? {
        return Err(authenticated.error);
      }
      r := SetTimezoneInterval(gmtOffset);
      if r.Ok? {
        r := SetReplySize();
      }
    }
  }
}
