/**
 * The few JavaScript string and number built-ins that the file validator
 * relies on, written out over `seq<char>`: `startsWith`, `split('.').pop()`,
 * `toLowerCase` (ASCII letters), the decimal rendering of a non-negative
 * integer and `toFixed(1)` of an exact quotient.
 */
module JsString {

  /** `s.startsWith(prefix)`. */
  predicate StartsWith(s: string, prefix: string) {
    |prefix| <= |s| && s[..|prefix|] == prefix
  }

  /**
   * Where the last piece of `s.split(sep)` begins: just after the last
   * `sep`, or 0 when there is none.
   */
  function LastPieceStart(s: string, sep: char): (k: nat)
    ensures k <= |s|
    ensures forall i :: k <= i < |s| ==> s[i] != sep
    ensures k > 0 ==> s[k - 1] == sep
  {
    if |s| == 0 then 0
    else if s[|s| - 1] == sep then |s|
    else LastPieceStart(s[..|s| - 1], sep)
  }

  /**
   * `s.split(sep).pop()`: the text after the last `sep`, or all of `s` when
   * `sep` does not occur in it (split always yields at least one piece).
   */
  function LastPiece(s: string, sep: char): (r: string)
    ensures |r| <= |s| && r == s[|s| - |r|..]
    ensures sep !in r
    ensures |r| == |s| <==> sep !in s
    ensures |r| < |s| ==> s[|s| - |r| - 1] == sep
  {
    s[LastPieceStart(s, sep)..]
  }

  /** A string that differs from `prefix` at some position does not start with it. */
  lemma NotStartsWith(s: string, prefix: string, i: nat)
    requires i < |prefix| && i < |s| && s[i] != prefix[i]
    ensures !StartsWith(s, prefix)
  {
  }

  /** When `d` is the position of the last `sep`, the last piece is everything after it. */
  lemma LastPieceAfter(s: string, sep: char, d: nat)
    requires d < |s| && s[d] == sep
    requires forall i :: d < i < |s| ==> s[i] != sep
    ensures LastPiece(s, sep) == s[d + 1..]
  {
  }

  predicate IsAsciiUpper(c: char) {
    'A' <= c <= 'Z'
  }

  function AsciiLower(c: char): (r: char)
    ensures !IsAsciiUpper(r)
    ensures IsAsciiUpper(c) ==> r as int == c as int + 32
    ensures !IsAsciiUpper(c) ==> r == c
  {
    if IsAsciiUpper(c) then (c as int + 32) as char else c
  }

  /** `s.toLowerCase()` restricted to the ASCII letters `A`..`Z`. */
  function ToLowerCase(s: string): (r: string)
    ensures |r| == |s|
    ensures forall i :: 0 <= i < |s| ==> r[i] == AsciiLower(s[i])
  {
    if s == [] then [] else [AsciiLower(s[0])] + ToLowerCase(s[1..])
  }

  function DigitChar(d: nat): (c: char)
    requires d < 10
    ensures '0' <= c <= '9' && c as int - '0' as int == d
  {
    ('0' as int + d) as char
  }

  /** The decimal digits of `n`, as `String(n)` renders a non-negative integer. */
  function NatToString(n: nat): (s: string)
    ensures |s| >= 1
    ensures forall i :: 0 <= i < |s| ==> '0' <= s[i] <= '9'
    ensures s[0] == '0' ==> n == 0 && s == "0"
  {
    if n < 10 then [DigitChar(n)] else NatToString(n / 10) + [DigitChar(n % 10)]
  }

  /** The value of a string of decimal digits, most significant first. */
  function DigitsValue(s: string): nat
    requires forall i :: 0 <= i < |s| ==> '0' <= s[i] <= '9'
  {
    if s == [] then 0
    else 10 * DigitsValue(s[..|s| - 1]) + (s[|s| - 1] as int - '0' as int)
  }

  /** Reading back the digits `NatToString` writes gives the number again. */
  lemma {:induction false} NatToStringRoundTrip(n: nat)
    ensures DigitsValue(NatToString(n)) == n
  {
    var s := NatToString(n);
    if n >= 10 {
      NatToStringRoundTrip(n / 10);
      assert s[..|s| - 1] == NatToString(n / 10);
    }
  }

  /**
   * The integer `t` nearest to `10 * num / den`, the larger one on a tie:
   * the tenths that `(num / den).toFixed(1)` prints when the quotient is
   * exactly representable.
   */
  function NearestTenths(num: nat, den: nat): (t: nat)
    requires den > 0
    ensures den * (2 * t) <= 20 * num + den < den * (2 * t + 2)
  {
    (20 * num + den) / (2 * den)
  }

  /**
   * `(num / den).toFixed(1)`: decimal digits, a point and one more digit,
   * which read together as the nearest tenths of the quotient.
   */
  function ToFixed1(num: nat, den: nat): (s: string)
    requires den > 0
    ensures |s| >= 3 && s[|s| - 2] == '.' && '0' <= s[|s| - 1] <= '9'
    ensures forall i :: 0 <= i < |s| - 2 ==> '0' <= s[i] <= '9'
    ensures 10 * DigitsValue(s[..|s| - 2]) + (s[|s| - 1] as int - '0' as int) == NearestTenths(num, den)
    ensures s[0] == '0' ==> |s| == 3
  {
    var t := NearestTenths(num, den);
    var whole := NatToString(t / 10);
    var r := whole + ['.', DigitChar(t % 10)];
    NatToStringRoundTrip(t / 10);
    assert r[..|r| - 2] == whole;
    r
  }
}
