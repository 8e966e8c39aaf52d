/** Building the credentials line the client sends in answer to the challenge. */
module Credentials {
  import opened Types
  import opened Text

  /** The authentication types whose credential is a digest. */
  predicate IsHashedType(t: string)
  {
    t == AuthMd5 || t == AuthSha512 || t == AuthSha384 || t == AuthSha256 || t == AuthSha1
  }

  predicate UsesV9PreHash(env: Env, config: Config)
  {
    config.challenge.protocol == Some(env.settings.mapiV9)
  }

  /** `authentication_hashsum`. A digest type hashes the password (first
      pre-hashed with the server's digest method under MAPI_V9) followed by
      the salt; PLAIN sends password and salt as they are; any other type
      gives Ruby's nil, which interpolates as "". Using a nil digest method
      or a nil salt raises. */
  function AuthenticationHashsum(env: Env, config: Config): (r: Result<string>)
    ensures r.Err? <==>
      config.authType.Some? &&
      ((IsHashedType(config.authType.value) &&
        UsesV9PreHash(env, config) && config.challenge.passwordDigestMethod.None?) ||
       ((IsHashedType(config.authType.value) || config.authType.value == AuthPlain) &&
        config.challenge.salt.None?))
    ensures r.Err? ==>
      r.error == (if IsHashedType(config.authType.value) && UsesV9PreHash(env, config) &&
                     config.challenge.passwordDigestMethod.None?
                  then NilField("password_digest_method") else NilField("salt"))
  {
    match config.authType
    case None => Ok("")
    case Some(t) =>
      if IsHashedType(t) then
        var password :=
          if UsesV9PreHash(env, config) then
            match config.challenge.passwordDigestMethod
            case None => Err(NilField("password_digest_method"))
            case Some(m) => Ok(env.digest(m, config.password))
          else Ok(config.password);
        if password.Err? then Err(password.error)
        else
          match config.challenge.salt
          case None => Err(NilField("salt"))
          case Some(salt) => Ok(env.digest(t, password.value + salt))
      else if t == AuthPlain then
        match config.challenge.salt
        case None => Err(NilField("salt"))
        case Some(salt) => Ok(config.password + salt)
      else Ok("")
  }

  /** The six fields of the credentials line, before they are joined. */
  function CredentialFields(env: Env, config: Config, hashsum: string): seq<string>
  {
    [env.settings.endianness, config.username, "{" + config.authType.GetOr("") + "}" + hashsum,
     env.settings.lang, config.database, ""]
  }

  /** `authentication_string`: the six fields joined with `:`. */
  function AuthenticationString(env: Env, config: Config): (r: Result<string>)
    ensures r.Ok? <==> AuthenticationHashsum(env, config).Ok?
    ensures r.Err? ==> r.error == AuthenticationHashsum(env, config).error
  {
    var h := AuthenticationHashsum(env, config);
    if h.Err? then Err(h.error)
    else Ok(Join(CredentialFields(env, config, h.value), ':'))
  }

  /** The credentials line is `endianness:user:{type}hash:lang:database:`:
      exactly six fields, the last one empty, whenever no field contains a colon. */
  lemma {:induction false} AuthenticationStringFields(env: Env, config: Config)
    requires AuthenticationString(env, config).Ok?
    requires forall i :: 0 <= i < 6 ==>
      ':' !in CredentialFields(env, config, AuthenticationHashsum(env, config).value)[i]
    ensures var fields := SplitAll(AuthenticationString(env, config).value, ':');
      |fields| == 6 &&
      fields[0] == env.settings.endianness && fields[1] == config.username &&
      fields[2] == "{" + config.authType.GetOr("") + "}" + AuthenticationHashsum(env, config).value &&
      fields[3] == env.settings.lang && fields[4] == config.database && fields[5] == ""
    ensures var line := AuthenticationString(env, config).value;
      |line| > 0 && line[|line| - 1] == ':'
  {
    var fields := CredentialFields(env, config, AuthenticationHashsum(env, config).value);
    SplitAllJoin(fields, ':');
    JoinEndsWithEmpty(fields, ':');
  }

  lemma {:induction false} JoinEndsWithEmpty(parts: seq<string>, sep: char)
    requires |parts| >= 2 && parts[|parts| - 1] == ""
    ensures var s := Join(parts, sep); |s| > 0 && s[|s| - 1] == sep
    decreases |parts|
  {
    if |parts| > 2 {
      JoinEndsWithEmpty(parts[1..], sep);
    }
  }

  /** What the hash sum is for each kind of authentication type. */
  lemma HashsumByType(env: Env, config: Config, t: string, salt: string)
    requires config.authType == Some(t) && config.challenge.salt == Some(salt)
    ensures t == AuthPlain ==> AuthenticationHashsum(env, config) == Ok(config.password + salt)
    ensures IsHashedType(t) && !UsesV9PreHash(env, config) ==>
      AuthenticationHashsum(env, config) == Ok(env.digest(t, config.password + salt))
    ensures IsHashedType(t) && UsesV9PreHash(env, config) && config.challenge.passwordDigestMethod.Some? ==>
      AuthenticationHashsum(env, config) ==
        Ok(env.digest(t, env.digest(config.challenge.passwordDigestMethod.value, config.password) + salt))
  {
  }

  /** Under MAPI_V9 the credential is the one an older protocol would send
      for the pre-hashed password. */
  lemma PreHashIsPasswordSubstitution(env: Env, config: Config, older: string)
    requires config.authType.Some? && IsHashedType(config.authType.value)
    requires UsesV9PreHash(env, config) && config.challenge.passwordDigestMethod.Some?
    requires older != env.settings.mapiV9
    ensures AuthenticationHashsum(env, config) ==
      AuthenticationHashsum(env, config.(
        password := env.digest(config.challenge.passwordDigestMethod.value, config.password),
        challenge := config.challenge.(protocol := Some(older))))
  {
  }

  /** PLAIN credentials never go through the digest library. */
  lemma PlainUsesNoDigest(env: Env, config: Config, digest: (string, string) -> string)
    requires config.authType == Some(AuthPlain)
    ensures AuthenticationHashsum(env, config) == AuthenticationHashsum(env.(digest := digest), config)
  {
  }
}
