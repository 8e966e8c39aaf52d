/** The data the login handshake works on: the parsed challenge, the
    connection's configuration hash, the errors it raises and the state of
    one connection object (its configuration, its counter and flags, and its
    transport seen as a queue of reply lines and a log of what was sent). */
module Types {

  datatype Option<+T> = None | Some(value: T) {
    function GetOr(default: T): T
    {
      match this
      case Some(v) => v
      case None => default
    }
  }

  /** The six positional fields of the server's challenge line; a field the
      line does not have is `None` (Ruby's nil). */
  datatype Challenge = Challenge(
    salt: Option<string>,
    serverName: Option<string>,
    protocol: Option<string>,
    authTypes: Option<string>,
    serverEndianness: Option<string>,
    passwordDigestMethod: Option<string>)

  /** The keys of the connection's `config` hash that the handshake reads or
      writes. The challenge keys are overwritten by `merge!` on every attempt. */
  datatype Config = Config(
    host: Option<string>,
    port: Option<string>,
    username: string,
    password: string,
    database: string,
    challenge: Challenge,
    authType: Option<string>)

  /** The redirect target as `URI.split` returns it (only the parts used). */
  datatype Uri = Uri(scheme: Option<string>, host: Option<string>, port: Option<string>)

  /** The reasons for a `MonetDB::AuthenticationError`. */
  datatype AuthFailure =
    | Rejected(reply: string)                 // the server answered with the error marker
    | UnsupportedAuthTypes(offered: seq<string>)
    | RedirectNotSupported(reply: string)     // no `^mapi:` line in the redirect reply
    | InvalidRedirectUri(uri: string)
    | TooManyRedirects                        // the merovingian proxy loop hit its bound
    | CannotAuthenticate                      // a redirect to an unknown scheme

  datatype Error =
    | ProtocolError(protocol: Option<string>)
    | AuthenticationError(failure: AuthFailure)
    | CommandError(reply: string)
    | NilField(key: string)   // a Ruby exception raised by using the nil value of this config key
    | EndOfInput              // the transport has no more reply lines

  datatype Result<+T> = Ok(value: T) | Err(error: Error)

  /** What the connection hands to the transport, in order. */
  datatype Event = Write(line: string) | Connect(host: Option<string>, port: Option<string>)

  /** What `authenticate` returns when it does not raise: `true` on an
      accepted login, or whatever `connect` returns after a direct redirect. */
  datatype AuthOutcome = Authenticated | Reconnected

  /** The constants the handshake takes from the surrounding connection class. */
  datatype Settings = Settings(
    protocols: seq<string>,   // PROTOCOLS
    authTypes: seq<string>,   // AUTH_TYPES, in the client's order of preference
    endianness: string,       // ENDIANNESS
    lang: string,             // LANG
    replySize: string,        // REPLY_SIZE, as interpolated
    mapiV9: string,           // MAPI_V9
    msgError: char,           // MSG_ERROR
    msgRedirect: char)        // MSG_REDIRECT

  /** Settings plus the two foreign operations: the digest library and `URI.split`. */
  datatype Env = Env(
    settings: Settings,
    digest: (string, string) -> string,
    parseUri: string -> Option<Uri>)

  /** The names of the authentication types the credential encoder knows. */
  const AuthMd5 := "MD5"
  const AuthSha512 := "SHA512"
  const AuthSha384 := "SHA384"
  const AuthSha256 := "SHA256"
  const AuthSha1 := "SHA1"
  const AuthPlain := "PLAIN"

  /** Everything about one connection object the handshake reads or changes. */
  datatype State = State(
    config: Config,
    input: seq<string>,           // reply lines the transport will still deliver
    trace: seq<Event>,            // what has been sent so far
    redirects: Option<nat>,       // @authentication_redirects
    timezoneSet: bool,            // @timezone_interval_set
    replySizeSet: bool)           // @reply_size_set

  /** A step's result together with the state it leaves behind (a raised
      exception leaves every change made before it in place). */
  datatype Step<+T> = Step(result: Result<T>, state: State)

  /** The first character of a reply, as `msg_chr` gives it; none for "". */
  function MsgChr(reply: string): Option<char>
  {
    if |reply| == 0 then None else Some(reply[0])
  }
}
