/** String primitives the firmware takes from the C++ standard library:
    `std::string::find` (as the reader stores it, in an `int`, so that a miss is -1),
    `std::string::substr` with its clamping of the length, and `std::to_string`. */
module Text {

  /** `s.find(c, from)` converted to `int`: the first index at or after `from`
      holding `c`, or -1 when there is none. */
  function FindChar(s: string, c: char, from: nat): (r: int)
    decreases |s| - from
    ensures r == -1 <==> forall k :: from <= k < |s| ==> s[k] != c
    ensures r != -1 ==> from <= r < |s| && s[r] == c
    ensures r != -1 ==> forall k :: from <= k < r ==> s[k] != c
  {
    if from >= |s| then -1
    else if s[from] == c then from
    else FindChar(s, c, from + 1)
  }

  /** Searching `pre + f + [c] + rest` for `c` from the start of `f` finds the
      `c` after `f` when `f` holds none. */
  lemma FindCharAfter(pre: string, f: string, c: char, rest: string)
    requires forall k :: 0 <= k < |f| ==> f[k] != c
    ensures FindChar(pre + f + [c] + rest, c, |pre|) == |pre| + |f|
  {
    var s := pre + f + [c] + rest;
    assert s[|pre| + |f|] == c;
    assert forall k :: |pre| <= k < |pre| + |f| ==> s[k] == f[k - |pre|];
  }

  /** `pat` occurs in `s` starting at index `k`. */
  predicate OccursAt(pat: string, s: string, k: int) {
    0 <= k && k + |pat| <= |s| && s[k..k + |pat|] == pat
  }

  /** `pat` is a substring of `s`. */
  ghost predicate Contains(s: string, pat: string) {
    exists k :: OccursAt(pat, s, k)
  }

  /** `s.find(pat, from)` converted to `int`: the first index at or after `from`
      where `pat` occurs, or -1 when there is none. */
  function FindStr(s: string, pat: string, from: nat): (r: int)
    decreases |s| - from
    ensures r == -1 <==> forall k :: from <= k ==> !OccursAt(pat, s, k)
    ensures r != -1 ==> from <= r && OccursAt(pat, s, r)
    ensures r != -1 ==> forall k :: from <= k < r ==> !OccursAt(pat, s, k)
  {
    if from + |pat| > |s| then -1
    else if s[from..from + |pat|] == pat then assert OccursAt(pat, s, from); from
    else FindStr(s, pat, from + 1)
  }

  /** Searching from the start finds `pat` exactly when it is a substring. */
  lemma FindStrFromStart(s: string, pat: string)
    ensures FindStr(s, pat, 0) != -1 <==> Contains(s, pat)
  {
    if FindStr(s, pat, 0) != -1 {
      assert OccursAt(pat, s, FindStr(s, pat, 0));
    }
  }

  /** `s.substr(pos, len)` where `len` arrives as a (possibly negative) `int`:
      a negative length converts to a huge `size_t`, and any length that runs
      past the end is clamped to the end of the string. */
  function Substr(s: string, pos: nat, len: int): (r: string)
    requires pos <= |s|
    ensures |r| == (if len < 0 || pos + len > |s| then |s| - pos else len)
    ensures r == s[pos..pos + |r|]
  {
    if len < 0 || pos + len > |s| then s[pos..] else s[pos..pos + len]
  }

  predicate IsDigit(c: char) {
    '0' <= c <= '9'
  }

  predicate IsDigits(s: string) {
    forall i :: 0 <= i < |s| ==> IsDigit(s[i])
  }

  function DigitChar(d: nat): (c: char)
    requires d < 10
    ensures IsDigit(c)
  {
    (48 + d) as char
  }

  function DigitValue(c: char): (d: nat)
    requires IsDigit(c)
    ensures d < 10 && DigitChar(d) == c
  {
    c as int - 48
  }

  /** `std::to_string` of a non-negative number: decimal digits, no leading zero. */
  function NatToString(n: nat): (r: string)
    decreases n
    ensures |r| >= 1 && IsDigits(r)
    ensures n >= 1 ==> r[0] != '0'
    ensures r[0] == '0' ==> r == "0"
  {
    if n < 10 then [DigitChar(n)] else NatToString(n / 10) + [DigitChar(n % 10)]
  }

  /** `std::to_string` of an `int` or `long`: a minus sign before the digits of a negative value. */
  function IntToString(n: int): string {
    if n < 0 then "-" + NatToString(-n) else NatToString(n)
  }

  /** The value of a string of decimal digits. */
  function DigitsValue(s: string): nat
    requires IsDigits(s)
  {
    if s == [] then 0 else 10 * DigitsValue(s[..|s| - 1]) + DigitValue(s[|s| - 1])
  }

  /** Reads back what `IntToString` writes (an optional minus sign, then digits). */
  function ParseInt(s: string): int
    requires |s| >= 1
    requires s[0] == '-' ==> IsDigits(s[1..])
    requires s[0] != '-' ==> IsDigits(s)
  {
    if s[0] == '-' then 0 - DigitsValue(s[1..]) else DigitsValue(s)
  }

  lemma {:induction false} NatToStringRoundTrip(n: nat)
    ensures DigitsValue(NatToString(n)) == n
    decreases n
  {
    if n >= 10 {
      var r := NatToString(n);
      assert r[..|r| - 1] == NatToString(n / 10);
      NatToStringRoundTrip(n / 10);
    }
  }

  /** `IntToString` loses nothing: parsing its output gives the number back. */
  lemma IntToStringRoundTrip(n: int)
    ensures |IntToString(n)| >= 1
    ensures IntToString(n)[0] == '-' <==> n < 0
    ensures ParseInt(IntToString(n)) == n
  {
    var r := IntToString(n);
    if n < 0 {
      assert r[1..] == NatToString(-n);
      NatToStringRoundTrip(-n);
    } else {
      NatToStringRoundTrip(n);
    }
  }

  /** Hence distinct numbers are written differently. */
  lemma IntToStringInjective(m: int, n: int)
    requires IntToString(m) == IntToString(n)
    ensures m == n
  {
    IntToStringRoundTrip(m);
    IntToStringRoundTrip(n);
  }
}
