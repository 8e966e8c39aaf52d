/** Ruby string operations the handshake relies on: `String#split` with a
    one-character separator, `Array#join`, `Integer#to_s` and `String#rjust`. */
module Text {

  /** Splits `s` at every `sep`, keeping every field, also empty trailing ones. */
  function SplitAll(s: string, sep: char): (r: seq<string>)
    ensures |r| >= 1
    ensures forall i :: 0 <= i < |r| ==> sep !in r[i]
    ensures Join(r, sep) == s
    decreases |s|
  {
    if |s| == 0 then [""]
    else if s[0] == sep then
      var rest := SplitAll(s[1..], sep);
      assert Join([""] + rest, sep) == [sep] + Join(rest, sep) by {
        assert ([""] + rest)[1..] == rest;
      }
      assert s == [sep] + s[1..];
      [""] + rest
    else
      var rest := SplitAll(s[1..], sep);
      var r := [[s[0]] + rest[0]] + rest[1..];
      assert Join(r, sep) == [s[0]] + Join(rest, sep) by {
        if |rest| > 1 {
          assert r[1..] == rest[1..];
        }
      }
      assert s == [s[0]] + s[1..];
      r
  }

  /** Ruby's `Array#join(sep)`: the fields with `sep` between consecutive ones. */
  function Join(parts: seq<string>, sep: char): string
    decreases |parts|
  {
    if |parts| == 0 then ""
    else if |parts| == 1 then parts[0]
    else parts[0] + [sep] + Join(parts[1..], sep)
  }

  /** Drops the empty fields at the end, as Ruby's `split` does without a limit. */
  function DropTrailingEmpty(parts: seq<string>): (r: seq<string>)
    ensures |r| <= |parts| && r == parts[..|r|]
    ensures |r| == 0 || r[|r| - 1] != ""
    ensures forall i :: |r| <= i < |parts| ==> parts[i] == ""
    decreases |parts|
  {
    if |parts| > 0 && parts[|parts| - 1] == "" then DropTrailingEmpty(parts[..|parts| - 1])
    else parts
  }

  /** Ruby's `s.split(sep)` for a separator other than a single space. */
  function Split(s: string, sep: char): (r: seq<string>)
    ensures forall i :: 0 <= i < |r| ==> sep !in r[i]
    ensures |r| == 0 || r[|r| - 1] != ""
  {
    DropTrailingEmpty(SplitAll(s, sep))
  }


  lemma {:induction false} SplitAllPlain(x: string, sep: char)
    requires sep !in x
    ensures SplitAll(x, sep) == [x]
    decreases |x|
  {
    if |x| > 0 {
      SplitAllPlain(x[1..], sep);
      assert [x[0]] + x[1..] == x;
    }
  }

  lemma {:induction false} SplitAllField(x: string, sep: char, rest: string)
    requires sep !in x
    ensures SplitAll(x + [sep] + rest, sep) == [x] + SplitAll(rest, sep)
    decreases |x|
  {
    var s := x + [sep] + rest;
    if |x| == 0 {
      assert s[1..] == rest;
    } else {
      assert s[1..] == x[1..] + [sep] + rest;
      SplitAllField(x[1..], sep, rest);
      assert [x[0]] + x[1..] == x;
    }
  }

  /** Splitting undoes joining when no field contains the separator. */
  lemma {:induction false} SplitAllJoin(parts: seq<string>, sep: char)
    requires |parts| >= 1
    requires forall i :: 0 <= i < |parts| ==> sep !in parts[i]
    ensures SplitAll(Join(parts, sep), sep) == parts
    decreases |parts|
  {
    if |parts| == 1 {
      SplitAllPlain(parts[0], sep);
    } else {
      SplitAllJoin(parts[1..], sep);
      SplitAllField(parts[0], sep, Join(parts[1..], sep));
      assert [parts[0]] + parts[1..] == parts;
    }
  }

  /** Ruby's `split` undoes `join` when no field contains the separator and the
      last field is not empty. */
  lemma SplitJoin(parts: seq<string>, sep: char)
    requires |parts| >= 1 && parts[|parts| - 1] != ""
    requires forall i :: 0 <= i < |parts| ==> sep !in parts[i]
    ensures Split(Join(parts, sep), sep) == parts
  {
    SplitAllJoin(parts, sep);
  }
  /** Splitting joined separator-free pieces gives back every piece up to a
      non-empty one, whatever empty pieces follow it. */
  lemma SplitJoinPrefix(parts: seq<string>, sep: char, k: nat)
    requires k < |parts| && parts[k] != ""
    requires forall i :: 0 <= i < |parts| ==> sep !in parts[i]
    ensures |Split(Join(parts, sep), sep)| > k
    ensures forall i :: 0 <= i <= k ==> Split(Join(parts, sep), sep)[i] == parts[i]
  {
    SplitAllJoin(parts, sep);
  }


  predicate IsDigit(c: char) { '0' <= c <= '9' }

  predicate AllDigits(s: string) { forall i :: 0 <= i < |s| ==> IsDigit(s[i]) }

  function DigitChar(d: nat): (c: char)
    requires d < 10
    ensures IsDigit(c) && c as int - '0' as int == d
  {
    ('0' as int + d) as char
  }

  /** Ruby's `Integer#to_s` for a non-negative integer: decimal, no leading zero. */
  function Digits(n: nat): (r: string)
    ensures |r| >= 1 && AllDigits(r)
    ensures r[0] == '0' ==> n == 0
    decreases n
  {
    if n < 10 then [DigitChar(n)] else Digits(n / 10) + [DigitChar(n % 10)]
  }

  /** The value of a string of decimal digits (leading zeros allowed). */
  function DecimalValue(s: string): nat
    requires AllDigits(s)
    decreases |s|
  {
    if |s| == 0 then 0
    else DecimalValue(s[..|s| - 1]) * 10 + (s[|s| - 1] as int - '0' as int)
  }

  lemma {:induction false} DecimalValueDigits(n: nat)
    ensures DecimalValue(Digits(n)) == n
    decreases n
  {
    if n >= 10 {
      var d := Digits(n / 10);
      DecimalValueDigits(n / 10);
      assert (d + [DigitChar(n % 10)])[..|d|] == d;
    }
  }

  function Repeat(c: char, k: nat): (r: string)
    ensures |r| == k && forall i :: 0 <= i < k ==> r[i] == c
  {
    if k == 0 then "" else [c] + Repeat(c, k - 1)
  }

  /** Leading zeros do not change the value of a decimal string. */
  lemma {:induction false} DecimalValueLeadingZeros(k: nat, s: string)
    requires AllDigits(s)
    ensures AllDigits(Repeat('0', k) + s)
    ensures DecimalValue(Repeat('0', k) + s) == DecimalValue(s)
    decreases |s|
  {
    var z := Repeat('0', k);
    if |s| == 0 {
      assert z + s == z;
      assert DecimalValue(z) == 0 by { ZerosValue(k); }
    } else {
      var s' := s[..|s| - 1];
      DecimalValueLeadingZeros(k, s');
      assert (z + s)[..|z + s| - 1] == z + s';
    }
  }

  lemma {:induction false} ZerosValue(k: nat)
    ensures DecimalValue(Repeat('0', k)) == 0
    decreases k
  {
    if k > 0 {
      var z := Repeat('0', k);
      assert z[..k - 1] == Repeat('0', k - 1);
      ZerosValue(k - 1);
    }
  }

  /** Ruby's `s.rjust(width, pad)`: `s` left-padded with `pad` up to `width`
      characters, unchanged if it is already that long. */
  function RJust(s: string, width: nat, pad: char): (r: string)
    ensures |r| == if |s| < width then width else |s|
    ensures r[|r| - |s|..] == s
    ensures forall i :: 0 <= i < |r| - |s| ==> r[i] == pad
  {
    if |s| < width then Repeat(pad, width - |s|) + s else s
  }

  predicate StartsWith(s: string, prefix: string)
  {
    |prefix| <= |s| && s[..|prefix|] == prefix
  }
}
