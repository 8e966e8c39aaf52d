# MonetDB MAPI login handshake in Dafny

This project models the client side of the MonetDB MAPI login, as the Ruby
mixin `MonetDB::Connection::Setup` performs it. The mixin covers the
following steps:

- It reads the server's challenge line and merges its six fields into the
  connection's configuration.
- It checks the protocol and picks the authentication type: the client's
  most preferred type that the server offers.
- It builds the credentials line. To do so it hashes the password with the
  salt, pre-hashing it first under protocol 9. PLAIN sends the password and
  salt as they are.
- It sorts the server's reply into error, redirect or success, and follows
  redirects. A merovingian proxy redirect runs the login again, at most five
  times until a login is accepted. A monetdb redirect points the configuration at the
  new server and reconnects.
- After the login it sends two one-shot session commands: the time zone as
  an `'±hh:00'` interval, then the reply size.

The project has three layers:

- **Pure functions.** `Text`, `ChallengeParser`, `Negotiation` and
  `Credentials` hold the parts that are plain expressions in Ruby. They
  cover `split`, which drops trailing empty fields, and positional `zip`,
  which gives nil for missing fields. They also cover `Array#&`, which keeps
  the receiver's order, `rjust`, and the hash sum and credentials string.
- **Specification functions.** `Handshake` and `Session` describe the
  stateful steps as functions from the connection's state (`Types.State`)
  to a result and a new state. That state is the configuration, the
  redirect counter, the two session flags, and the transport. The transport
  is a queue of reply lines still to arrive plus a trace of what was sent.
  A raised exception becomes an `Err` result that keeps every change made
  before it.
- **The class.** `Setup.Connection` is the object itself. Its fields are
  updated in place by one method per Ruby method. Each method's contract
  says that its result and its new fields are exactly what the
  specification function computes from its old fields.

The properties are stated as contracts and lemmas over the specification
functions:

- what each step writes and reads;
- that nothing is written before negotiation succeeds;
- how many credentials lines a login can write;
- the exact outcome of a repeated proxy redirect;
- the interval format and its round trip;
- the at-most-once behaviour of the session commands and the order in
  `setup`.

## Model

| member | source | states |
|---|---|---|
| ChallengeParser.ParseChallengeRoundTrip | lib/monetdb/connection/setup.rb:35-38 | a line of six colon-free fields, the last one not empty, gives exactly those six fields as salt, server name, protocol, auth types, endianness and digest method, in that order |
| ChallengeParser.ParseChallengeDropsExtra | lib/monetdb/connection/setup.rb:35-38 | fields after the sixth are dropped, empty ones from a trailing colon included, and the first six are assigned as usual whenever `split` keeps the sixth field (it or a later field is not empty) |
| ChallengeParser.ParseChallengeMissing | lib/monetdb/connection/setup.rb:35-38 | a line with fewer than six fields leaves the remaining keys nil; a trailing empty field counts as missing, because `split` drops it |
| Text.Split | lib/monetdb/connection/setup.rb:36 | Ruby's `split`: no piece contains the separator and the last piece is never empty |
| Text.SplitJoin | lib/monetdb/connection/setup.rb:36 | splitting a joined list of separator-free pieces, the last one not empty, gives the pieces back |
| Text.RJust | lib/monetdb/connection/setup.rb:111 | `rjust`: the string is kept at the end and padded on the left to the width, and left unchanged when already that long |
| Negotiation.AssertSupportedProtocol | lib/monetdb/connection/setup.rb:40-44 | passes exactly when the challenge has a protocol and it is in PROTOCOLS; otherwise raises a protocol error carrying the protocol or nil |
| Negotiation.Intersect | lib/monetdb/connection/setup.rb:47 | Ruby's `&`: the elements are exactly those in both lists, without repeats, and the result is empty exactly when the lists share nothing |
| Negotiation.SelectAuthTypePriority | lib/monetdb/connection/setup.rb:46-50 | the chosen type is the first type in AUTH_TYPES order that the server offers, and there is none exactly when the lists share nothing |
| Negotiation.SelectAuthTypeIgnoresServerOrder | lib/monetdb/connection/setup.rb:47 | the choice depends only on which types the server offers, not on their order |
| Negotiation.ClientOrderExample | lib/monetdb/connection/setup.rb:47 | on concrete lists, the client's order decides between two shared types |
| Credentials.AuthenticationHashsum | lib/monetdb/connection/setup.rb:56-66 | fails exactly when a nil salt is used, or under protocol 9 a nil digest method; the error names `password_digest_method` when that key is nil under protocol 9 and `salt` otherwise |
| Credentials.HashsumByType | lib/monetdb/connection/setup.rb:56-66 | PLAIN gives password plus salt; a digest type gives digest(type, password + salt); under protocol 9 the password is first digested with the server's method |
| Credentials.PreHashIsPasswordSubstitution | lib/monetdb/connection/setup.rb:61-62 | under protocol 9 the hash sum equals the older protocols' hash sum of the pre-hashed password |
| Credentials.PlainUsesNoDigest | lib/monetdb/connection/setup.rb:63-64 | the PLAIN credential does not depend on the digest library at all |
| Credentials.AuthenticationString | lib/monetdb/connection/setup.rb:52-54 | succeeds exactly when the hash sum does, and carries the hash sum's error otherwise |
| Credentials.AuthenticationStringFields | lib/monetdb/connection/setup.rb:52-54 | the line splits into exactly six fields (ENDIANNESS, user, `{type}hash`, LANG, database, empty) and ends with `:` |
| Handshake.ReadSpec | lib/monetdb/connection/setup.rb:16 | a read consumes exactly the first queued line, and fails with end of input, changing nothing, when the queue is empty |
| Handshake.SelectSupportedAuthTypeSpec | lib/monetdb/connection/setup.rb:46-50 | only `auth_type` changes; it succeeds exactly when the server offers a client type, storing the client's first such type; nil auth types raise |
| Handshake.ObtainServerChallengeSpec | lib/monetdb/connection/setup.rb:29-33 | writes nothing; on success it consumed one line, merged that line's challenge and chose a type |
| Handshake.FirstRedirectLine | lib/monetdb/connection/setup.rb:73 | finds what follows `^mapi:` on the first line that starts with it, and finds nothing exactly when no line does |
| Handshake.NegotiatedTypeIsShared | lib/monetdb/connection/setup.rb:29-33 | after negotiation the stored type is the client's most preferred type among those the server listed |
| Handshake.ProtocolErrorWritesNothing | lib/monetdb/connection/setup.rb:12-15 | an unsupported or missing protocol raises a protocol error before anything is written |
| Handshake.NoSharedAuthTypeWritesNothing | lib/monetdb/connection/setup.rb:13-15 | no shared type raises an authentication error listing the server's types, writes nothing, and leaves `auth_type` nil |
| Handshake.AuthenticateBounded | lib/monetdb/connection/setup.rb:12-27 | the trace only grows; at most one credentials line per allowed attempt is written; a counter within its bound stays within it |
| Handshake.RedirectBounded | lib/monetdb/connection/setup.rb:72-98 | the same bound for the redirect handler, with one credentials line per remaining proxy redirect |
| Handshake.AuthenticateKeepsFlags | lib/monetdb/connection/setup.rb:12-27 | a login, redirects included, never changes the two session flags |
| Handshake.RedirectKeepsFlags | lib/monetdb/connection/setup.rb:72-98 | the redirect handler never changes the two session flags |
| Handshake.FirstWriteIsCredentials | lib/monetdb/connection/setup.rb:12-15 | if a login writes anything, negotiation and the credentials succeeded, and the first thing written is the credentials line |
| Handshake.ErrorReplyRejected | lib/monetdb/connection/setup.rb:18-20 | an error-marker reply raises an authentication error carrying the reply, after exactly the credentials line was written |
| Handshake.OtherReplyAuthenticates | lib/monetdb/connection/setup.rb:23-25 | any other reply, the empty one included, returns true and clears the counter |
| Handshake.RedirectReplyHandled | lib/monetdb/connection/setup.rb:21-22 | a redirect-marker reply to the credentials line is handed, whatever its scheme, to the redirect handler in the state just after that line was written and the reply read |
| Handshake.MonetdbRedirectReplyReconnects | lib/monetdb/connection/setup.rb:21-22 | a `^mapi:monetdb://` reply to the credentials line returns Reconnected, with host and port taken from the URI, the credentials line and a Connect event written, and the counter untouched |
| Handshake.DirectRedirectReconnects | lib/monetdb/connection/setup.rb:91-94 | a monetdb redirect sets host and port from the URI, then reconnects, leaving the counter alone |
| Handshake.RedirectFailures | lib/monetdb/connection/setup.rb:73-81 | no `^mapi:` line, an unparsable URI, or an unknown scheme each raise the matching authentication error and change nothing |
| Handshake.ProxyRedirectStep | lib/monetdb/connection/setup.rb:84-87 | a merovingian redirect with the counter (nil as 0) below 5 increments it and authenticates again |
| Handshake.ProxyRedirectRefused | lib/monetdb/connection/setup.rb:85-89 | with the counter at 5 or more it raises "too many redirects", leaving the counter initialised |
| Handshake.ProxyRedirectsRestart | lib/monetdb/connection/setup.rb:12-27 | n allowed proxy redirects in a row lead back to the start of a login, with the counter raised by n and one credentials line written per round |
| Handshake.ProxyRedirectsExhausted | lib/monetdb/connection/setup.rb:84-89 | redirect after redirect, the login fails with "too many redirects" on the redirect after the fifth counted one, having written one credentials line per round and left the counter at 5 |
| Handshake.ProxyRedirectsWithinBudget | lib/monetdb/connection/setup.rb:18-27 | while the counter allows, proxy redirects followed by an accepting reply end in success, with the counter cleared and n + 1 credentials lines written |
| Session.OffsetHours | lib/monetdb/connection/setup.rb:103 | the hour offset is the GMT offset divided by 3600, rounded toward minus infinity |
| Session.TimezoneInterval | lib/monetdb/connection/setup.rb:109-111 | the literal is quoted, starts with `-` for a negative offset and `+` otherwise, ends with `:00'`, and has 8 characters below 100 hours |
| Session.TimezoneIntervalRoundTrip | lib/monetdb/connection/setup.rb:109-111 | reading the literal back gives the hour offset it was built from |
| Session.TimezoneIntervalInjective | lib/monetdb/connection/setup.rb:109-111 | different hour offsets give different literals |
| Session.TimezoneIntervalExamples | lib/monetdb/connection/setup.rb:103-111 | -5 h gives `'-05:00'`; -3.5 h gives `'-04:00'`; +9.5 h gives `'+09:00'` |
| Session.OneShotCommandSpec | lib/monetdb/connection/setup.rb:100-130 | with the flag set, answers false and changes nothing; otherwise writes the command once and reads one reply; an error reply raises a command error with the flag still unset; any other reply sets the flag and answers true |
| Session.OneShotAtMostOnce | lib/monetdb/connection/setup.rb:100-130 | after a command went through or was skipped, the next call sends nothing and answers false |
| Session.OneShotRetriesAfterError | lib/monetdb/connection/setup.rb:116-130 | after a refused command, the flag is unset and the next call sends the command again |
| Session.SessionSpec | lib/monetdb/connection/setup.rb:8-9 | if the two session steps succeed, both flags are set; a refused or unanswered time-zone command ends the steps with its own error and state, so the reply-size command is not written; configuration and counter are untouched |
| Session.SetupSpec | lib/monetdb/connection/setup.rb:6-10 | if `setup` succeeds, both session options are set |
| Session.SetupStopsOnLoginFailure | lib/monetdb/connection/setup.rb:6-10 | a failed login raises its error and sends no session command |
| Session.SessionOnFreshConnection | lib/monetdb/connection/setup.rb:100-130 | with neither option set, the time-zone command is written before the reply-size command, and both flags end up set |
| Session.SetupOnFreshConnection | lib/monetdb/connection/setup.rb:6-10 | on a fresh connection a successful login is followed by exactly the time-zone command, then the reply-size command, answering true |
| Session.SetupAgainSkipsSession | lib/monetdb/connection/setup.rb:6-10 | running `setup` again after it succeeded sends no session command and answers false |
| Setup.Connection.constructor | lib/monetdb/connection/setup.rb:6-10 | a new connection has sent nothing, has no counter and has neither option set |
| Setup.Connection.ServerChallenge | lib/monetdb/connection/setup.rb:35-38 | reads one line and returns its challenge |
| Setup.Connection.AssertSupportedProtocol | lib/monetdb/connection/setup.rb:40-44 | succeeds exactly when the configured protocol is supported, and changes nothing |
| Setup.Connection.SelectSupportedAuthType | lib/monetdb/connection/setup.rb:46-50 | result and new fields are `SelectSupportedAuthTypeSpec` of the old fields |
| Setup.Connection.ObtainServerChallenge | lib/monetdb/connection/setup.rb:29-33 | result and new fields are `ObtainServerChallengeSpec` of the old fields |
| Setup.Connection.Authenticate | lib/monetdb/connection/setup.rb:12-27 | result and new fields are `AuthenticateSpec` of the old fields |
| Setup.Connection.AuthenticationRedirect | lib/monetdb/connection/setup.rb:72-98 | result and new fields are `AuthenticationRedirectSpec` of the old fields |
| Setup.Connection.SetTimezoneInterval | lib/monetdb/connection/setup.rb:100-120 | result and new fields are `SetTimezoneIntervalSpec` of the old fields |
| Setup.Connection.SetReplySize | lib/monetdb/connection/setup.rb:122-130 | result and new fields are `SetReplySizeSpec` of the old fields |
| Setup.Connection.Setup | lib/monetdb/connection/setup.rb:6-10 | result and new fields are `SetupSpec` of the old fields |

## Left out

- The digest library (`hexdigest`, `Digest.const_get`) is the parameter `env.digest`, an arbitrary function of the method name and the text. An unknown method name, which raises in Ruby, is not modelled.
- `URI.split` is the parameter `env.parseUri`, a partial function. `None` stands for `URI::InvalidURIError`. Only the scheme, host and port it returns are kept.
- The regular-expression match is modelled as a literal `^mapi:` prefix test on each line, which is what it amounts to once the reply is split into lines.
- `read`, `write`, `connect`, `msg_chr` and `msg?` are defined outside `setup.rb` and are not part of this model.
  - Reading takes the next line from a queue and fails with `EndOfInput` when the queue is empty.
  - Writing appends to a trace.
  - `connect` is a `Connect(host, port)` event in that trace. Its own work (opening a socket, and any login it runs on the new server) is not modelled, so the monetdb redirect is not followed any further.
  - `msg_chr` and `msg?` are taken to look at the first character of the reply.
- `Time.now.gmt_offset` is the parameter `gmtOffset`, in seconds.
- PROTOCOLS, AUTH_TYPES, ENDIANNESS, LANG, REPLY_SIZE, MAPI_V9, MSG_ERROR and MSG_REDIRECT are defined elsewhere. They are fields of `Types.Settings`. REPLY_SIZE is kept as the text it interpolates to. AUTH_MD5, AUTH_SHA512, AUTH_SHA384, AUTH_SHA256, AUTH_SHA1 and AUTH_PLAIN are also defined elsewhere; the model fixes them to the constants `Types.AuthMd5` … `Types.AuthPlain`, the strings "MD5", "SHA512", "SHA384", "SHA256", "SHA1" and "PLAIN".
- The configuration hash is the record `Types.Config`, holding only the keys the handshake uses. Username, password and database are strings, so the model cannot represent a nil one. A nil username or database would give an empty field of the credentials line in Ruby, because `Array#join` turns nil into an empty string; a nil password would raise when it is concatenated with the salt or digested.
- The wording of exception messages is left out. Errors are told apart by kind and by the data they carry.
- Exceptions from the transport (a closed socket) are not modelled; the only transport failure is the empty queue.
- Handshake.ProxyRedirectsExhausted, Handshake.ProxyRedirectsWithinBudget and Handshake.ProxyRedirectsRestart: these assume that the server repeats the same challenge line and the same redirect reply in every round. Logins with a different challenge in each round are covered by the general bound Handshake.AuthenticateBounded only, not by an exact outcome.
- Two behaviours of the code worth knowing:
  - The redirect counter is cleared only by an accepted login, not when a monetdb redirect or a new login starts.
  - `config` keeps the merged challenge when negotiation fails. `auth_type` becomes nil only when the server offers no type the client supports; a protocol error or a nil `auth_types` leaves `auth_type` as it was.
