/**
 * The few Python `str` operations the notebook relies on, with Python's
 * semantics written out: `find`, one-character `replace`, slicing from an
 * index that may be negative, `removesuffix`, and `str()` of a non-negative int.
 */
module PyStr {

  /** `s.find(c)` for a single character: the first index of `c`, or -1. */
  function Find(s: string, c: char): (r: int)
    ensures r == -1 <==> c !in s
    ensures r != -1 ==> 0 <= r < |s| && s[r] == c && c !in s[..r]
  {
    if |s| == 0 then -1
    else if s[0] == c then 0
    else
      var k := Find(s[1..], c);
      if k == -1 then -1
      else
        assert s[..k + 1] == [s[0]] + s[1..][..k];
        k + 1
  }

  /** `s.replace(pat, rep)` where both are single characters. */
  function Replace(s: string, pat: char, rep: char): (r: string)
    ensures |r| == |s|
    ensures forall i :: 0 <= i < |s| ==> r[i] == (if s[i] == pat then rep else s[i])
    ensures pat != rep ==> pat !in r
  {
    if s == [] then []
    else [if s[0] == pat then rep else s[0]] + Replace(s[1..], pat, rep)
  }

  /**
   * Where Python's `s[i:]` starts in a string of length `n`: a negative `i`
   * counts from the end, and both ends are clamped.
   */
  function SliceStart(n: nat, i: int): (k: nat)
    ensures k <= n
  {
    if i >= 0 then (if i <= n then i else n)
    else (if -i <= n then n + i else 0)
  }

  /** `s[i:]`. */
  function SliceFrom(s: string, i: int): (r: string)
    ensures r == s[SliceStart(|s|, i)..]
  {
    if i >= 0 then (if i <= |s| then s[i..] else [])
    else (if -i <= |s| then s[|s| + i..] else s)
  }

  predicate EndsWith(s: string, suffix: string)
  {
    |suffix| <= |s| && s[|s| - |suffix|..] == suffix
  }

  /** `s.removesuffix(suffix)`: case-sensitive, removes at most one copy. */
  function RemoveSuffix(s: string, suffix: string): (r: string)
    ensures EndsWith(s, suffix) ==> r + suffix == s
    ensures !EndsWith(s, suffix) ==> r == s
  {
    if EndsWith(s, suffix) then s[..|s| - |suffix|] else s
  }

  predicate IsDigit(c: char)
  {
    '0' <= c <= '9'
  }

  function DigitChar(d: nat): (c: char)
    requires d < 10
    ensures IsDigit(c) && c as int - '0' as int == d
  {
    ('0' as int + d) as char
  }

  /** `str(n)` for a non-negative int: decimal digits without leading zeros. */
  function NatToDecimal(n: nat): (r: string)
    ensures |r| > 0
    ensures forall i :: 0 <= i < |r| ==> IsDigit(r[i])
    ensures r[0] == '0' ==> n == 0
  {
    if n < 10 then [DigitChar(n)]
    else NatToDecimal(n / 10) + [DigitChar(n % 10)]
  }

  /** The value of a string of decimal digits, read left to right. */
  function DecimalValue(s: string): nat
    requires forall i :: 0 <= i < |s| ==> IsDigit(s[i])
  {
    if s == [] then 0
    else
      assert IsDigit(s[|s| - 1]);
      10 * DecimalValue(s[..|s| - 1]) + (s[|s| - 1] as int - '0' as int)
  }

  /** Reading back the digits of `str(n)` gives `n`. */
  lemma {:induction false} DecimalRoundTrip(n: nat)
    ensures DecimalValue(NatToDecimal(n)) == n
  {
    var r := NatToDecimal(n);
    if n >= 10 {
      DecimalRoundTrip(n / 10);
      assert r[..|r| - 1] == NatToDecimal(n / 10);
    }
  }

  /** Different timestamps print differently. */
  lemma NatToDecimalInjective(m: nat, n: nat)
    requires NatToDecimal(m) == NatToDecimal(n)
    ensures m == n
  {
    DecimalRoundTrip(m);
    DecimalRoundTrip(n);
  }

  /** Concatenation regrouped; stated once so that proofs about strings need not reason element-wise. */
  lemma ConcatAssoc(x: string, y: string, z: string)
    ensures x + (y + z) == (x + y) + z
  {
  }

  /** The two halves of a concatenation, read back by slicing. */
  lemma ConcatenationParts(a: string, b: string)
    ensures (a + b)[..|a|] == a && (a + b)[|a|..] == b
  {
  }

  /** The first character and the rest of a concatenation whose left part is not empty. */
  lemma ConcatTail(a: string, b: string)
    requires |a| > 0
    ensures (a + b)[0] == a[0] && (a + b)[1..] == a[1..] + b
  {
  }

  /** A non-empty string is its first character followed by the rest. */
  lemma ConsSplit(s: string)
    requires |s| > 0
    ensures [s[0]] + s[1..] == s
  {
  }
}
