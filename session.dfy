/** The two one-shot session commands sent after login, and `setup`, which
    runs the login and then both commands. */
module Session {
  import opened Types
  import opened Text
  import opened Handshake

  /** The hour offset `Time.now.gmt_offset / 3600`. Ruby's integer `/`
      rounds toward minus infinity, which for a positive divisor is what
      Dafny's `/` does. */
  function OffsetHours(gmtOffset: int): (r: int)
    ensures r * 3600 <= gmtOffset < r * 3600 + 3600
  {
    gmtOffset / 3600
  }

  function Magnitude(x: int): nat
  {
    if x < 0 then -x else x
  }

  /** The interval literal `'<sign><hours>:00'`: the sign is `-` for a
      negative offset and `+` otherwise, and the hours are the magnitude
      right-justified to two digits with zeros. */
  function TimezoneInterval(hours: int): (r: string)
    ensures |r| >= 8 && r[0] == '\'' && r[|r| - 4..] == ":00'"
    ensures r[1] == (if hours < 0 then '-' else '+')
    ensures Magnitude(hours) < 100 ==> |r| == 8
  {
    DigitsBelow100(Magnitude(hours));
    var sign := if hours < 0 then "-" else "+";
    "'" + sign + RJust(Digits(Magnitude(hours)), 2, '0') + ":00'"
  }

  /** Reading an hour offset back out of an interval literal. */
  function IntervalHours(interval: string): Option<int>
  {
    if |interval| < 6 || interval[0] != '\'' || interval[|interval| - 4..] != ":00'" then None
    else
      var digits := interval[2..|interval| - 4];
      if !AllDigits(digits) then None
      else
        var value: int := DecimalValue(digits);
        if interval[1] == '-' then Some(-value)
        else if interval[1] == '+' then Some(value)
        else None
  }

  /** The zero-padded hours read back as the magnitude. */
  lemma {:induction false} PaddedHoursValue(m: nat)
    ensures AllDigits(RJust(Digits(m), 2, '0')) && DecimalValue(RJust(Digits(m), 2, '0')) == m
  {
    var d := Digits(m);
    DecimalValueDigits(m);
    if |d| < 2 {
      assert RJust(d, 2, '0') == Repeat('0', 2 - |d|) + d;
      DecimalValueLeadingZeros(2 - |d|, d);
    }
  }

  /** The pieces of the interval literal: the sign, then the padded hours. */
  lemma IntervalPieces(hours: int, r: string)
    requires r == TimezoneInterval(hours)
    ensures r[1] == (if hours < 0 then '-' else '+')
    ensures r[2..|r| - 4] == RJust(Digits(Magnitude(hours)), 2, '0')
  {
  }

  /** The interval literal determines the hour offset it was built from. */
  lemma {:induction false} TimezoneIntervalRoundTrip(hours: int)
    ensures IntervalHours(TimezoneInterval(hours)) == Some(hours)
  {
    var r := TimezoneInterval(hours);
    IntervalPieces(hours, r);
    PaddedHoursValue(Magnitude(hours));
  }

  /** Different hour offsets give different interval literals. */
  lemma TimezoneIntervalInjective(h1: int, h2: int)
    requires TimezoneInterval(h1) == TimezoneInterval(h2)
    ensures h1 == h2
  {
    TimezoneIntervalRoundTrip(h1);
    TimezoneIntervalRoundTrip(h2);
  }

  lemma DigitsBelow100(n: nat)
    ensures n < 100 ==> |Digits(n)| <= 2
  {
    if 10 <= n < 100 {
      assert Digits(n) == Digits(n / 10) + [DigitChar(n % 10)];
    }
  }

  /** The literal for an offset of fewer than ten hours. */
  lemma OneDigitInterval(hours: int)
    requires Magnitude(hours) < 10
    ensures TimezoneInterval(hours) ==
      ['\'', if hours < 0 then '-' else '+', '0', DigitChar(Magnitude(hours)), ':', '0', '0', '\'']
  {
  }

  /** Five hours west of Greenwich; a half-hour zone west rounds to the
      hour before it; nine and a half hours east keeps only the hour. */
  lemma TimezoneIntervalExamples()
    ensures TimezoneInterval(OffsetHours(-18000)) == "'-05:00'"
    ensures TimezoneInterval(OffsetHours(-12600)) == "'-04:00'"
    ensures TimezoneInterval(OffsetHours(34200)) == "'+09:00'"
  {
    assert OffsetHours(-18000) == -5;
    OneDigitInterval(-5);
    assert OffsetHours(-12600) == -4;
    OneDigitInterval(-4);
    assert OffsetHours(34200) == 9;
    OneDigitInterval(9);
  }

  /** The SQL command that sets the session time zone. */
  function TimezoneCommand(gmtOffset: int): string
  {
    "sSET TIME ZONE INTERVAL " + TimezoneInterval(OffsetHours(gmtOffset)) + " HOUR TO MINUTE;"
  }

  /** The MAPI command that sets the reply size. */
  function ReplySizeCommand(settings: Settings): string
  {
    "Xreply_size " + settings.replySize + "\n"
  }

  /** The two session settings, each sent at most once per connection. */
  datatype Setting = TimezoneSetting | ReplySizeSetting

  /** `@timezone_interval_set` or `@reply_size_set`. */
  function IsSet(s: State, f: Setting): bool
  {
    match f
    case TimezoneSetting => s.timezoneSet
    case ReplySizeSetting => s.replySizeSet
  }

  function Other(f: Setting): Setting
  {
    match f
    case TimezoneSetting => ReplySizeSetting
    case ReplySizeSetting => TimezoneSetting
  }

  function MarkSet(s: State, f: Setting): (r: State)
    ensures IsSet(r, f) && IsSet(r, Other(f)) == IsSet(s, Other(f))
    ensures r.config == s.config && r.input == s.input && r.trace == s.trace && r.redirects == s.redirects
  {
    match f
    case TimezoneSetting => s.(timezoneSet := true)
    case ReplySizeSetting => s.(replySizeSet := true)
  }

  /** `msg?(response, MSG_ERROR)`: the reply starts with the error marker. */
  predicate IsErrorReply(settings: Settings, response: string)
  {
    MsgChr(response) == Some(settings.msgError)
  }

  /** The shape `set_timezone_interval` and `set_reply_size` share: answer
      `false` without a word when the flag is set; otherwise send the command,
      read the reply, raise a command error on an error reply (the flag stays
      unset), and set the flag and answer `true` on any other reply. */
  function OneShotCommandSpec(env: Env, f: Setting, command: string, s: State): (r: Step<bool>)
    ensures IsSet(s, f) ==> r == Step(Ok(false), s)
    ensures r.result == Ok(false) <==> IsSet(s, f)
    ensures !IsSet(s, f) ==> r.state.trace == s.trace + [Write(command)]
    ensures !IsSet(s, f) && |s.input| == 0 ==> r.result == Err(EndOfInput)
    ensures !IsSet(s, f) && |s.input| > 0 ==>
      r.state.input == s.input[1..] &&
      (r.result == Ok(true) <==> !IsErrorReply(env.settings, s.input[0])) &&
      (r.result.Err? ==> r.result.error == CommandError(s.input[0]))
    ensures IsSet(r.state, f) <==> IsSet(s, f) || r.result == Ok(true)
    ensures IsSet(r.state, Other(f)) == IsSet(s, Other(f))
    ensures r.state.config == s.config && r.state.redirects == s.redirects
  {
    if IsSet(s, f) then Step(Ok(false), s)
    else
      var reply := ReadSpec(WriteSpec(s, command));
      if reply.result.Err? then Step(Err(reply.result.error), reply.state)
      else if IsErrorReply(env.settings, reply.result.value) then
        Step(Err(CommandError(reply.result.value)), reply.state)
      else Step(Ok(true), MarkSet(reply.state, f))
  }

  /** `set_timezone_interval`, with the local offset from GMT in seconds as
      a parameter. */
  function SetTimezoneIntervalSpec(env: Env, gmtOffset: int, s: State): Step<bool>
  {
    OneShotCommandSpec(env, TimezoneSetting, TimezoneCommand(gmtOffset), s)
  }

  /** `set_reply_size`. */
  function SetReplySizeSpec(env: Env, s: State): Step<bool>
  {
    OneShotCommandSpec(env, ReplySizeSetting, ReplySizeCommand(env.settings), s)
  }

  /** Once a command has gone through, asking again sends nothing and
      changes nothing, whatever the command line would be this time. */
  lemma {:induction false} OneShotAtMostOnce(env: Env, f: Setting, command: string, later: string, s: State)
    requires OneShotCommandSpec(env, f, command, s).result.Ok?
    ensures var t := OneShotCommandSpec(env, f, command, s).state;
      OneShotCommandSpec(env, f, later, t) == Step(Ok(false), t)
  {
  }

  /** A failed command can be sent again: its flag is still unset and the
      next attempt writes the command once more. */
  lemma {:induction false} OneShotRetriesAfterError(env: Env, f: Setting, command: string, s: State)
    requires OneShotCommandSpec(env, f, command, s).result.Err?
    ensures var t := OneShotCommandSpec(env, f, command, s).state;
      !IsSet(t, f) && OneShotCommandSpec(env, f, command, t).state.trace == t.trace + [Write(command)]
  {
  }

  /** A command the server accepts is written once, consumes one reply and
      sets its flag. */
  lemma OneShotAccepted(env: Env, f: Setting, command: string, s: State, reply: string, rest: seq<string>)
    requires !IsSet(s, f) && s.input == [reply] + rest && !IsErrorReply(env.settings, reply)
    ensures OneShotCommandSpec(env, f, command, s) ==
      Step(Ok(true), MarkSet(s.(input := rest, trace := s.trace + [Write(command)]), f))
  {
    assert s.input[1..] == rest;
  }

  /** What `setup` does after the login: the time zone, then the reply size,
      stopping at the first failure. */
  function SessionSpec(env: Env, gmtOffset: int, s: State): (r: Step<bool>)
    ensures r.result.Ok? ==> r.state.timezoneSet && r.state.replySizeSet
    ensures r.state.config == s.config && r.state.redirects == s.redirects
    ensures SetTimezoneIntervalSpec(env, gmtOffset, s).result.Err? ==> r == SetTimezoneIntervalSpec(env, gmtOffset, s)
  {
    var timezone := SetTimezoneIntervalSpec(env, gmtOffset, s);
    if timezone.result.Err? then Step(Err(timezone.result.error), timezone.state)
    else SetReplySizeSpec(env, timezone.state)
  }

  /** `setup`: authenticate, then set the time zone, then the reply size;
      the first failure stops the sequence, and the answer is
      `set_reply_size`'s. */
  function SetupSpec(env: Env, gmtOffset: int, s: State): (r: Step<bool>)
    ensures r.result.Ok? ==> r.state.timezoneSet && r.state.replySizeSet
  {
    var auth := AuthenticateSpec(env, s);
    if auth.result.Err? then Step(Err(auth.result.error), auth.state)
    else SessionSpec(env, gmtOffset, auth.state)
  }

  /** A failed login sends no session command. */
  lemma SetupStopsOnLoginFailure(env: Env, gmtOffset: int, s: State)
    requires AuthenticateSpec(env, s).result.Err?
    ensures var r := SetupSpec(env, gmtOffset, s);
      r.result == Err(AuthenticateSpec(env, s).result.error) && r.state == AuthenticateSpec(env, s).state
  {
  }

  /** An accepted time-zone command hands over to the reply-size command. */
  lemma SessionAfterTimezone(env: Env, gmtOffset: int, a: State, reply: string, rest: seq<string>, mid: State)
    requires !a.timezoneSet && a.input == [reply] + rest && !IsErrorReply(env.settings, reply)
    requires mid == a.(input := rest, trace := a.trace + [Write(TimezoneCommand(gmtOffset))], timezoneSet := true)
    ensures SessionSpec(env, gmtOffset, a) == SetReplySizeSpec(env, mid)
  {
    OneShotAccepted(env, TimezoneSetting, TimezoneCommand(gmtOffset), a, reply, rest);
  }

  /** With neither option set yet, the time-zone command goes out before the
      reply-size command, and when neither is refused both options end up set. */
  lemma SessionOnFreshConnection(env: Env, gmtOffset: int, a: State,
                                 timezoneReply: string, replySizeReply: string, rest: seq<string>)
    requires !a.timezoneSet && !a.replySizeSet
    requires a.input == [timezoneReply, replySizeReply] + rest
    requires !IsErrorReply(env.settings, timezoneReply) && !IsErrorReply(env.settings, replySizeReply)
    ensures SessionSpec(env, gmtOffset, a) ==
      Step(Ok(true), a.(input := rest,
                        trace := a.trace + [Write(TimezoneCommand(gmtOffset)), Write(ReplySizeCommand(env.settings))],
                        timezoneSet := true, replySizeSet := true))
  {
    assert a.input == [timezoneReply] + ([replySizeReply] + rest);
    var mid := a.(input := [replySizeReply] + rest, trace := a.trace + [Write(TimezoneCommand(gmtOffset))],
                  timezoneSet := true);
    SessionAfterTimezone(env, gmtOffset, a, timezoneReply, [replySizeReply] + rest, mid);
    OneShotAccepted(env, ReplySizeSetting, ReplySizeCommand(env.settings), mid, replySizeReply, rest);
    assert mid.trace + [Write(ReplySizeCommand(env.settings))] ==
      a.trace + [Write(TimezoneCommand(gmtOffset)), Write(ReplySizeCommand(env.settings))];
  }

  /** On a connection that has not set either option yet, a successful
      login is followed by the time-zone command and then the reply-size
      command. */
  lemma SetupOnFreshConnection(env: Env, gmtOffset: int, s: State, a: State,
                               timezoneReply: string, replySizeReply: string, rest: seq<string>)
    requires !s.timezoneSet && !s.replySizeSet
    requires AuthenticateSpec(env, s).result.Ok? && AuthenticateSpec(env, s).state == a
    requires a.input == [timezoneReply, replySizeReply] + rest
    requires !IsErrorReply(env.settings, timezoneReply) && !IsErrorReply(env.settings, replySizeReply)
    ensures SetupSpec(env, gmtOffset, s) ==
      Step(Ok(true), a.(input := rest,
                        trace := a.trace + [Write(TimezoneCommand(gmtOffset)), Write(ReplySizeCommand(env.settings))],
                        timezoneSet := true, replySizeSet := true))
  {
    AuthenticateKeepsFlags(env, s);
    SessionOnFreshConnection(env, gmtOffset, a, timezoneReply, replySizeReply, rest);
  }

  /** Once both options are set, the session commands send nothing. */
  lemma SessionWhenSet(env: Env, gmtOffset: int, a: State)
    requires a.timezoneSet && a.replySizeSet
    ensures SessionSpec(env, gmtOffset, a) == Step(Ok(false), a)
  {
  }

  /** Running `setup` again after it succeeded repeats the login but sends
      neither session command. */
  lemma SetupAgainSkipsSession(env: Env, gmtOffset: int, later: int, s: State)
    requires SetupSpec(env, gmtOffset, s).result.Ok?
    ensures var t := SetupSpec(env, gmtOffset, s).state;
      var again := AuthenticateSpec(env, t);
      again.result.Ok? ==> SetupSpec(env, later, t) == Step(Ok(false), again.state)
  {
    var t := SetupSpec(env, gmtOffset, s).state;
    AuthenticateKeepsFlags(env, t);
    SessionWhenSet(env, later, AuthenticateSpec(env, t).state);
  }
}
