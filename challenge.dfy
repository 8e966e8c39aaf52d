/** Decoding the server's greeting line, `salt:server:protocol:types:endianness:digest`. */
module ChallengeParser {
  import opened Types
  import opened Text

  /** The piece at position `i`, or nil when the line has fewer pieces
      (what `zip` pairs a key with when it runs out of values). */
  function Piece(pieces: seq<string>, i: nat): Option<string>
  {
    if i < |pieces| then Some(pieces[i]) else None
  }

  /** `server_challenge` without its `read`: split the line on `:` and assign
      the pieces to the six keys in order; extra pieces are dropped. */
  function ParseChallenge(line: string): Challenge
  {
    var pieces := Split(line, ':');
    Challenge(Piece(pieces, 0), Piece(pieces, 1), Piece(pieces, 2),
              Piece(pieces, 3), Piece(pieces, 4), Piece(pieces, 5))
  }

  /** A line made of six colon-free fields, the last one not empty, parses
      back to exactly those fields. */
  lemma ParseChallengeRoundTrip(fields: seq<string>)
    requires |fields| == 6 && fields[5] != ""
    requires forall i :: 0 <= i < 6 ==> ':' !in fields[i]
    ensures ParseChallenge(Join(fields, ':')) ==
      Challenge(Some(fields[0]), Some(fields[1]), Some(fields[2]),
                Some(fields[3]), Some(fields[4]), Some(fields[5]))
  {
    SplitJoin(fields, ':');
  }

  /** Pieces after the sixth never reach the challenge, empty ones (a
      trailing colon) included, as long as `split` keeps the sixth piece:
      that piece or a later one is not empty. */
  lemma {:induction false} ParseChallengeDropsExtra(fields: seq<string>, extra: seq<string>)
    requires |fields| == 6
    requires fields[5] != "" || exists i :: 0 <= i < |extra| && extra[i] != ""
    requires forall i :: 0 <= i < 6 ==> ':' !in fields[i]
    requires forall i :: 0 <= i < |extra| ==> ':' !in extra[i]
    ensures ParseChallenge(Join(fields + extra, ':')) ==
      Challenge(Some(fields[0]), Some(fields[1]), Some(fields[2]),
                Some(fields[3]), Some(fields[4]), Some(fields[5]))
  {
    var all := fields + extra;
    var k: nat := 5;
    if fields[5] == "" {
      var e :| 0 <= e < |extra| && extra[e] != "";
      k := 6 + e;
    }
    ColonFreeConcat(fields, extra);
    SplitJoinPrefix(all, ':', k);
  }

  /** Two lists of colon-free pieces concatenate to one. */
  lemma ColonFreeConcat(fields: seq<string>, extra: seq<string>)
    requires forall i :: 0 <= i < |fields| ==> ':' !in fields[i]
    requires forall i :: 0 <= i < |extra| ==> ':' !in extra[i]
    ensures forall i :: 0 <= i < |fields + extra| ==> ':' !in (fields + extra)[i]
  {
    forall i | 0 <= i < |fields + extra| ensures ':' !in (fields + extra)[i] {
      if i >= |fields| { assert (fields + extra)[i] == extra[i - |fields|]; }
    }
  }

  /** A line with fewer than six pieces leaves the remaining keys nil; an
      empty trailing field counts as missing, as Ruby's `split` drops it. */
  lemma {:induction false} ParseChallengeMissing(fields: seq<string>, k: nat)
    requires 1 <= |fields| <= 5 && k == |fields|
    requires forall i :: 0 <= i < |fields| ==> ':' !in fields[i]
    ensures var pieces := Split(Join(fields, ':'), ':');
      |pieces| <= k && pieces == fields[..|pieces|] &&
      (fields[k - 1] != "" ==> pieces == fields)
    ensures var c := ParseChallenge(Join(fields, ':'));
      c.passwordDigestMethod == None &&
      (k <= 4 ==> c.serverEndianness == None) &&
      (k <= 3 ==> c.authTypes == None) &&
      (k <= 2 ==> c.protocol == None) &&
      (k <= 1 ==> c.serverName == None)
  {
    SplitAllJoin(fields, ':');
  }
}
