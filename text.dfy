/** String helpers shared by the file-operation modules: concatenation of a
    list of strings, substring containment (Python's `in` on two strings) and
    the decimal rendering of a natural number (Python's `str` on an `int`). */
module Text {

  /** The strings of `parts` joined with no separator (`"".join(parts)`). */
  function Concat(parts: seq<string>): string
  {
    if |parts| == 0 then "" else parts[0] + Concat(parts[1..])
  }

  predicate StartsWith(s: string, prefix: string)
  {
    |prefix| <= |s| && s[..|prefix|] == prefix
  }

  /** `needle in hay` for two strings. */
  predicate IsSubstring(needle: string, hay: string)
  {
    exists i :: 0 <= i <= |hay| && StartsWith(hay[i..], needle)
  }

  lemma SuffixIsSubstring(prefix: string, needle: string)
    ensures IsSubstring(needle, prefix + needle)
  {
    var hay := prefix + needle;
    assert hay[|prefix|..] == needle;
    assert StartsWith(hay[|prefix|..], needle);
  }

  lemma SubstringOfPrefix(needle: string, hay: string, more: string)
    requires IsSubstring(needle, hay)
    ensures IsSubstring(needle, hay + more)
  {
    var i :| 0 <= i <= |hay| && StartsWith(hay[i..], needle);
    assert (hay + more)[i..][..|needle|] == hay[i..][..|needle|];
    assert StartsWith((hay + more)[i..], needle);
  }

  predicate IsDigit(c: char)
  {
    '0' <= c <= '9'
  }

  function DigitChar(d: nat): (c: char)
    requires d < 10
    ensures IsDigit(c) && c as int - '0' as int == d
  {
    ['0', '1', '2', '3', '4', '5', '6', '7', '8', '9'][d]
  }

  /** The decimal digits of `n`, most significant first, without leading zeros. */
  function NatToString(n: nat): (s: string)
    ensures 1 <= |s|
    ensures forall k :: 0 <= k < |s| ==> IsDigit(s[k])
    ensures |s| > 1 ==> s[0] != '0'
    decreases n
  {
    if n < 10 then [DigitChar(n)] else NatToString(n / 10) + [DigitChar(n % 10)]
  }

  function DigitValue(c: char): (d: nat)
    requires IsDigit(c)
    ensures d < 10
  {
    c as int - '0' as int
  }

  /** The number a string of decimal digits denotes; the reading half of the
      round trip with `NatToString`. */
  function DecimalValue(s: string): nat
    requires forall k :: 0 <= k < |s| ==> IsDigit(s[k])
  {
    if |s| == 0 then 0
    else 10 * DecimalValue(s[..|s| - 1]) + DigitValue(s[|s| - 1])
  }

  lemma {:induction false} NatToStringRoundTrip(n: nat)
    ensures DecimalValue(NatToString(n)) == n
    decreases n
  {
    var s := NatToString(n);
    if n >= 10 {
      NatToStringRoundTrip(n / 10);
      assert s[..|s| - 1] == NatToString(n / 10);
    }
  }
}
