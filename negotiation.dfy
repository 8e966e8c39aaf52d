/** Checking the challenge's protocol and choosing the authentication type. */
module Negotiation {
  import opened Types
  import opened Text

  /** `assert_supported_protocol!`: the challenge's protocol (nil when the
      line had no third piece) must be one of PROTOCOLS. */
  function AssertSupportedProtocol(settings: Settings, config: Config): (r: Result<()>)
    ensures r.Ok? <==> config.challenge.protocol.Some? && config.challenge.protocol.value in settings.protocols
    ensures r.Err? ==> r.error == ProtocolError(config.challenge.protocol)
  {
    match config.challenge.protocol
    case Some(p) => if p in settings.protocols then Ok(()) else Err(ProtocolError(Some(p)))
    case None => Err(ProtocolError(None))
  }

  /** Ruby's `a & b`: the elements of `a` that also occur in `b`, each once,
      in the order of `a`. */
  function Intersect(a: seq<string>, b: seq<string>): (r: seq<string>)
    ensures forall x :: x in r <==> x in a && x in b
    ensures forall i, j :: 0 <= i < j < |r| ==> r[i] != r[j]
    ensures r == [] <==> forall k :: 0 <= k < |a| ==> a[k] !in b
    decreases |a|
  {
    if |a| == 0 then []
    else
      var front := a[..|a| - 1];
      var x := a[|a| - 1];
      assert a == front + [x];
      var p := Intersect(front, b);
      if x in b && x !in p then p + [x] else p
  }

  /** `k` is the first position of `a` whose element occurs in `b`. */
  ghost predicate FirstSharedAt(a: seq<string>, b: seq<string>, k: int)
  {
    0 <= k < |a| && a[k] in b && forall j :: 0 <= j < k ==> a[j] !in b
  }

  /** The intersection starts with the first element of `a` that `b` has. */
  lemma {:induction false} IntersectHead(a: seq<string>, b: seq<string>, k: int)
    requires FirstSharedAt(a, b, k)
    ensures |Intersect(a, b)| > 0 && Intersect(a, b)[0] == a[k]
    decreases |a|
  {
    var front := a[..|a| - 1];
    var x := a[|a| - 1];
    var p := Intersect(front, b);
    if k < |a| - 1 {
      assert FirstSharedAt(front, b, k);
      IntersectHead(front, b, k);
    } else {
      assert forall j :: 0 <= j < |front| ==> front[j] == a[j];
    }
  }

  /** `(AUTH_TYPES & server).first`: the authentication type to use. */
  function SelectAuthType(client: seq<string>, server: seq<string>): Option<string>
  {
    var shared := Intersect(client, server);
    if |shared| == 0 then None else Some(shared[0])
  }

  /** The chosen type is the client's most preferred type that the server
      offers, and there is none exactly when the two lists share nothing. */
  lemma SelectAuthTypePriority(client: seq<string>, server: seq<string>)
    ensures SelectAuthType(client, server).None? <==> forall k :: 0 <= k < |client| ==> client[k] !in server
    ensures SelectAuthType(client, server).Some? ==>
      exists k :: FirstSharedAt(client, server, k) && client[k] == SelectAuthType(client, server).value
  {
    if exists k :: 0 <= k < |client| && client[k] in server {
      var k := FirstIndex(client, server);
      IntersectHead(client, server, k);
    }
  }

  /** The first position of `a` whose element `b` has, when there is one. */
  lemma FirstIndex(a: seq<string>, b: seq<string>) returns (k: int)
    requires exists k :: 0 <= k < |a| && a[k] in b
    ensures FirstSharedAt(a, b, k)
  {
    k := 0;
    while a[k] !in b
      invariant 0 <= k < |a|
      invariant forall j :: 0 <= j < k ==> a[j] !in b
      invariant exists m :: k <= m < |a| && a[m] in b
      decreases |a| - k
    {
      k := k + 1;
    }
  }

  /** Only which types the server offers matters, not the order it lists them in. */
  lemma SelectAuthTypeIgnoresServerOrder(client: seq<string>, server1: seq<string>, server2: seq<string>)
    requires forall x :: x in server1 <==> x in server2
    ensures SelectAuthType(client, server1) == SelectAuthType(client, server2)
  {
    SelectAuthTypePriority(client, server1);
    SelectAuthTypePriority(client, server2);
    if SelectAuthType(client, server1).Some? {
      var k1 :| FirstSharedAt(client, server1, k1) && client[k1] == SelectAuthType(client, server1).value;
      var k2 :| FirstSharedAt(client, server2, k2) && client[k2] == SelectAuthType(client, server2).value;
      assert FirstSharedAt(client, server2, k1);
    }
  }

  /** The choice between two types both sides support follows the client's order. */
  lemma ClientOrderExample()
    ensures SelectAuthType([AuthMd5, AuthSha512], [AuthSha512, AuthMd5]) == Some(AuthMd5)
    ensures SelectAuthType([AuthSha512, AuthMd5], [AuthSha512, AuthMd5]) == Some(AuthSha512)
    ensures SelectAuthType([AuthSha512, AuthMd5], [AuthMd5, AuthSha512]) == Some(AuthSha512)
  {
    IntersectHead([AuthMd5, AuthSha512], [AuthSha512, AuthMd5], 0);
    IntersectHead([AuthSha512, AuthMd5], [AuthSha512, AuthMd5], 0);
    IntersectHead([AuthSha512, AuthMd5], [AuthMd5, AuthSha512], 0);
  }
}
