/**
 * Character classification and delimiter detection on a CSV header line
 * (`find_delimiter` and `get_non_alphanumeric_chars` in the notebook).
 */
module CsvInspection {
  import opened Wrappers

  datatype InspectionError = NoDelimiterFound

  /** Membership in the regular-expression class `[a-zA-Z0-9]` (ASCII only). */
  predicate IsAsciiAlnum(c: char)
  {
    'a' <= c <= 'z' || 'A' <= c <= 'Z' || '0' <= c <= '9'
  }

  /** The four delimiters the notebook recognises, in its own order. */
  const Delimiters: seq<char> := [';', ',', '\t', '|']

  predicate IsDelimiter(c: char)
  {
    c in Delimiters
  }

  /** Non-alphanumeric characters a header may keep: the delimiters, space, underscore, CR and LF. */
  predicate IsAllowed(c: char)
  {
    IsDelimiter(c) || c == ' ' || c == '_' || c == '\r' || c == '\n'
  }

  /** A "special" character: neither in `[a-zA-Z0-9]` nor allowed. Non-ASCII letters are special. */
  predicate IsSpecial(c: char)
  {
    !IsAsciiAlnum(c) && !IsAllowed(c)
  }

  /**
   * The index the generator in `find_delimiter` stops at: the leftmost
   * delimiter, or None when the generator is exhausted.
   */
  function FirstDelimiterIndex(s: string): (r: Option<nat>)
    ensures r.None? <==> forall j :: 0 <= j < |s| ==> !IsDelimiter(s[j])
    ensures r.Some? ==> r.value < |s| && IsDelimiter(s[r.value])
    ensures r.Some? ==> forall j :: 0 <= j < r.value ==> !IsDelimiter(s[j])
  {
    if s == [] then None
    else if IsDelimiter(s[0]) then Some(0)
    else match FirstDelimiterIndex(s[1..])
      case None => None
      case Some(k) => Some(k + 1)
  }

  /**
   * `find_delimiter`: the leftmost delimiter character of the header. `next`
   * has no default, so a header without one raises; that is `NoDelimiterFound`.
   */
  function FindDelimiter(header: string): (r: Result<char, InspectionError>)
    ensures r.Failure? <==> forall j :: 0 <= j < |header| ==> !IsDelimiter(header[j])
    ensures r.Success? ==> IsDelimiter(r.value)
    ensures r.Success? ==>
      exists i :: 0 <= i < |header| && header[i] == r.value &&
        forall j :: 0 <= j < i ==> !IsDelimiter(header[j])
  {
    match FirstDelimiterIndex(header)
    case None => Failure(NoDelimiterFound)
    case Some(i) => Success(header[i])
  }

  /**
   * `get_non_alphanumeric_chars`: the distinct special characters of `s`.
   * Python builds a set and lists it in hash order; this model lists them in
   * order of last occurrence, and the repair step is proved not to depend on
   * the order.
   */
  function NonAlphanumericChars(s: string): (r: seq<char>)
    ensures forall i, j :: 0 <= i < j < |r| ==> r[i] != r[j]
    ensures forall c :: c in r <==> c in s && IsSpecial(c)
  {
    if s == [] then []
    else
      var rest := NonAlphanumericChars(s[1..]);
      assert forall c :: c in s <==> c == s[0] || c in s[1..];
      if IsSpecial(s[0]) && s[0] !in rest then [s[0]] + rest else rest
  }

  /** A header made only of alphanumerics, spaces, underscores, delimiters and carriage returns has no special character. */
  lemma NoSpecialInPlainHeader(s: string)
    requires forall i :: 0 <= i < |s| ==>
      IsAsciiAlnum(s[i]) || IsDelimiter(s[i]) || s[i] == ' ' || s[i] == '_' || s[i] == '\r'
    ensures NonAlphanumericChars(s) == []
  {
  }

  /** Text after the first delimiter does not change which delimiter is found. */
  lemma DelimiterOfPrefix(a: string, rest: string)
    requires FindDelimiter(a).Success?
    ensures FindDelimiter(a + rest) == FindDelimiter(a)
  {
    var s := a + rest;
    var k := FirstDelimiterIndex(a).value;
    assert forall j :: 0 <= j <= k ==> s[j] == a[j];
    var m := FirstDelimiterIndex(s);
    assert m.Some? && m.value == k;
  }

  /** Example: of several delimiters, the leftmost one wins. */
  lemma LeftmostDelimiterExample()
    ensures FindDelimiter("a|b;c") == Success('|')
    ensures FindDelimiter("ab") == Failure(NoDelimiterFound)
  {
    var s := "a|b;c";
    assert !IsDelimiter(s[0]) && IsDelimiter(s[1]);
    assert s[1..][0] == '|';
    assert FirstDelimiterIndex(s[1..]) == Some(0);
    var t := "ab";
    assert !IsDelimiter(t[0]) && !IsDelimiter(t[1]);
  }
}
