/** The parts of the C++ standard library the preprocessor relies on:
    string::size_type with its npos sentinel and wrap-around, string::find,
    string::substr and to_string on non-negative integers. */
module CppString {

  /** string::size_type on a 64-bit target is a 64-bit unsigned integer:
      arithmetic is modulo 2^64. */
  const SIZE_MOD: nat := 0x1_0000_0000_0000_0000

  /** string::npos, the largest size_type value; find returns it when nothing is found. */
  const NPOS: nat := SIZE_MOD - 1

  /** size_type addition, which wraps around (npos + 1 == 0). */
  function SizeAdd(a: nat, b: nat): (r: nat)
    ensures r < SIZE_MOD
    ensures a + b < SIZE_MOD ==> r == a + b
  {
    (a + b) % SIZE_MOD
  }

  /** Every std::string is shorter than npos (string::max_size() < npos), so a
      found index can never be confused with npos. */
  predicate Fits(s: string)
  {
    |s| < NPOS
  }

  /** Every string of a list fits. */
  ghost predicate AllFit(lines: seq<string>)
  {
    forall i :: 0 <= i < |lines| ==> Fits(lines[i])
  }

  lemma AllFitConcat(a: seq<string>, b: seq<string>)
    requires AllFit(a) && AllFit(b)
    ensures AllFit(a + b)
  {
  }

  /** string::find(c, pos): the first index at or after pos that holds c, or npos. */
  function Find(s: string, c: char, pos: nat): (r: nat)
    requires Fits(s)
    ensures r == NPOS || (pos <= r < |s| && s[r] == c)
    decreases |s| - pos
  {
    if pos >= |s| then NPOS
    else if s[pos] == c then pos
    else Find(s, c, pos + 1)
  }

  /** string::substr(pos, len): at most len characters starting at pos; a length
      running past the end is cut at the end. pos == |s| is allowed and gives "". */
  function Substr(s: string, pos: nat, len: nat): (r: string)
    requires pos <= |s|
    ensures |r| == (if len < |s| - pos then len else |s| - pos)
    ensures r == s[pos..pos + |r|]
  {
    if len < |s| - pos then s[pos..pos + len] else s[pos..]
  }

  /** The number of occurrences of c in s[pos..]. */
  function CountFrom(s: string, c: char, pos: nat): nat
    decreases |s| - pos
  {
    if pos >= |s| then 0 else (if s[pos] == c then 1 else 0) + CountFrom(s, c, pos + 1)
  }

  // ---------------------------------------------------------------------------
  // to_string on the non-negative int values the preprocessor prints

  predicate IsDigit(ch: char)
  {
    '0' <= ch <= '9'
  }

  predicate IsDigits(s: string)
  {
    forall i :: 0 <= i < |s| ==> IsDigit(s[i])
  }

  function DigitChar(d: nat): (ch: char)
    requires d < 10
    ensures IsDigit(ch)
  {
    (('0' as int) + d) as char
  }

  /** to_string(n) for n >= 0: the decimal digits of n, most significant first,
      with no leading zero. */
  function NatToString(n: nat): (r: string)
    ensures |r| >= 1 && IsDigits(r)
    ensures r[0] == '0' <==> n == 0
    ensures n == 0 ==> r == "0"
  {
    if n < 10 then [DigitChar(n)] else NatToString(n / 10) + [DigitChar(n % 10)]
  }

  /** Reads a string of decimal digits back as a number. */
  function DigitsValue(s: string): (n: nat)
    requires IsDigits(s)
  {
    if s == [] then 0
    else DigitsValue(s[..|s| - 1]) * 10 + ((s[|s| - 1] as int) - ('0' as int))
  }

  /** to_string loses nothing: reading the digits back gives the number. */
  lemma {:induction false} NatToStringRoundTrip(n: nat)
    ensures DigitsValue(NatToString(n)) == n
  {
    if n >= 10 {
      var r := NatToString(n);
      assert r[..|r| - 1] == NatToString(n / 10);
      NatToStringRoundTrip(n / 10);
    }
  }

  /** Distinct numbers print as distinct strings. */
  lemma NatToStringInjective(a: nat, b: nat)
    requires NatToString(a) == NatToString(b)
    ensures a == b
  {
    NatToStringRoundTrip(a);
    NatToStringRoundTrip(b);
  }
}
