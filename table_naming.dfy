/**
 * `generate_table_name`: a table name derived from a CSV file's base name by
 * collapsing every run of characters outside `[0-9a-zA-Z]` to one `_`,
 * lower-casing, removing one trailing `_csv` and prefixing `bronze_`.
 */
module TableNaming {
  import opened PyStr
  import opened CsvInspection

  const Prefix: string := "bronze_"

  /** No two `_` stand next to each other. */
  ghost predicate NoDoubleUnderscore(s: string)
  {
    forall i, j :: 0 <= i && j == i + 1 && j < |s| ==> s[i] != '_' || s[j] != '_'
  }

  /** The leading run of characters outside `[0-9a-zA-Z]` removed. */
  function DropNonAlnumPrefix(s: string): (r: string)
    ensures |r| <= |s| && r == s[|s| - |r|..]
    ensures r == [] || IsAsciiAlnum(r[0])
    ensures forall i :: 0 <= i < |s| - |r| ==> !IsAsciiAlnum(s[i])
  {
    if s == [] || IsAsciiAlnum(s[0]) then s else DropNonAlnumPrefix(s[1..])
  }

  /**
   * `re.sub('[^0-9a-zA-Z]+', '_', s)`: scanning left to right, each maximal
   * run of characters outside the class is replaced by a single `_`.
   */
  function CollapseNonAlnumRuns(s: string): (r: string)
    decreases |s|
    ensures |r| == 0 <==> |s| == 0
    ensures |r| > 0 ==> (IsAsciiAlnum(r[0]) <==> IsAsciiAlnum(s[0]))
    ensures forall i :: 0 <= i < |r| ==> IsAsciiAlnum(r[i]) || r[i] == '_'
    ensures NoDoubleUnderscore(r)
  {
    if s == [] then []
    else if IsAsciiAlnum(s[0]) then [s[0]] + CollapseNonAlnumRuns(s[1..])
    else ['_'] + CollapseNonAlnumRuns(DropNonAlnumPrefix(s[1..]))
  }

  /** The letters and digits of `s`, in order. */
  function AlnumOf(s: string): string
  {
    if s == [] then []
    else (if IsAsciiAlnum(s[0]) then [s[0]] else []) + AlnumOf(s[1..])
  }

  /** Dropping the leading run loses no letter or digit. */
  lemma {:induction false} DropKeepsAlnum(s: string)
    ensures AlnumOf(DropNonAlnumPrefix(s)) == AlnumOf(s)
  {
    if s != [] && !IsAsciiAlnum(s[0]) {
      DropKeepsAlnum(s[1..]);
    }
  }

  /** Collapsing keeps every letter and digit of the name, in order, and adds none. */
  lemma {:induction false} CollapseKeepsAlnum(s: string)
    decreases |s|
    ensures AlnumOf(CollapseNonAlnumRuns(s)) == AlnumOf(s)
  {
    if s != [] {
      var r := CollapseNonAlnumRuns(s);
      if IsAsciiAlnum(s[0]) {
        CollapseKeepsAlnum(s[1..]);
        assert r[1..] == CollapseNonAlnumRuns(s[1..]);
      } else {
        var d := DropNonAlnumPrefix(s[1..]);
        CollapseKeepsAlnum(d);
        DropKeepsAlnum(s[1..]);
        assert r[1..] == CollapseNonAlnumRuns(d);
      }
    }
  }

  /** Collapsing an already collapsed name changes nothing. */
  lemma {:induction false} CollapseIdempotent(s: string)
    decreases |s|
    ensures CollapseNonAlnumRuns(CollapseNonAlnumRuns(s)) == CollapseNonAlnumRuns(s)
  {
    if s != [] {
      var r := CollapseNonAlnumRuns(s);
      if IsAsciiAlnum(s[0]) {
        CollapseIdempotent(s[1..]);
        assert r == [s[0]] + CollapseNonAlnumRuns(s[1..]);
        assert r[1..] == CollapseNonAlnumRuns(s[1..]);
      } else {
        var d := DropNonAlnumPrefix(s[1..]);
        CollapseIdempotent(d);
        var x := CollapseNonAlnumRuns(d);
        assert r == ['_'] + x;
        assert r[1..] == x;
        assert DropNonAlnumPrefix(x) == x;
      }
    }
  }

  /** An ASCII upper-case letter to its lower-case form; every other character unchanged. */
  function LowerChar(c: char): char
  {
    if 'A' <= c <= 'Z' then (c as int + 32) as char else c
  }

  /**
   * `str.lower()` restricted to ASCII letters. It is only applied after the
   * collapse, when every character is an ASCII letter, a digit or `_`.
   */
  function AsciiLower(s: string): (r: string)
    ensures |r| == |s|
    ensures forall i :: 0 <= i < |s| ==> r[i] == LowerChar(s[i])
    ensures forall i :: 0 <= i < |r| ==> !('A' <= r[i] <= 'Z')
  {
    if s == [] then [] else [LowerChar(s[0])] + AsciiLower(s[1..])
  }

  /** Lower-casing maps the letters and digits of a name to those of its lower-cased form. */
  lemma {:induction false} LowerCommutesWithAlnum(s: string)
    ensures AlnumOf(AsciiLower(s)) == AsciiLower(AlnumOf(s))
  {
    if s != [] {
      LowerCommutesWithAlnum(s[1..]);
      var l := AsciiLower(s);
      assert l[0] == LowerChar(s[0]) && l[1..] == AsciiLower(s[1..]);
      assert IsAsciiAlnum(l[0]) <==> IsAsciiAlnum(s[0]);
      if IsAsciiAlnum(s[0]) {
        assert AsciiLower(AlnumOf(s)) == AsciiLower([s[0]] + AlnumOf(s[1..]));
      }
    }
  }

  /** The characters a generated table name is made of after its prefix. */
  predicate IsTableNameChar(c: char)
  {
    'a' <= c <= 'z' || '0' <= c <= '9' || c == '_'
  }

  /** The lower-cased, collapsed name before the `_csv` suffix is removed. */
  function NormalisedName(csvFileName: string): (r: string)
    ensures forall i :: 0 <= i < |r| ==> IsTableNameChar(r[i])
    ensures NoDoubleUnderscore(r)
    ensures AlnumOf(r) == AsciiLower(AlnumOf(csvFileName))
  {
    var c := CollapseNonAlnumRuns(csvFileName);
    CollapseKeepsAlnum(csvFileName);
    LowerCommutesWithAlnum(c);
    LowerKeepsShape(c);
    AsciiLower(c)
  }

  /** Lower-casing a collapsed name leaves only table-name characters and adds no `__`. */
  lemma LowerKeepsShape(c: string)
    requires forall i :: 0 <= i < |c| ==> IsAsciiAlnum(c[i]) || c[i] == '_'
    requires NoDoubleUnderscore(c)
    ensures forall i :: 0 <= i < |c| ==> IsTableNameChar(AsciiLower(c)[i])
    ensures NoDoubleUnderscore(AsciiLower(c))
  {
    var l := AsciiLower(c);
    forall i | 0 <= i < |c|
      ensures IsTableNameChar(l[i]) && (l[i] == '_' <==> c[i] == '_')
    {
      assert l[i] == LowerChar(c[i]);
    }
  }

  /** Cutting a string short keeps it free of `__`. */
  lemma NoDoubleUnderscorePrefix(s: string, k: nat)
    requires k <= |s| && NoDoubleUnderscore(s)
    ensures NoDoubleUnderscore(s[..k])
  {
    var t := s[..k];
    forall i, j | 0 <= i && j == i + 1 && j < |t|
      ensures t[i] != '_' || t[j] != '_'
    {
      assert t[i] == s[i] && t[j] == s[j];
    }
  }

  /** `generate_table_name`. */
  function GenerateTableName(csvFileName: string): (r: string)
    ensures |r| >= |Prefix| && r[..|Prefix|] == Prefix
    ensures forall i :: |Prefix| <= i < |r| ==> IsTableNameChar(r[i])
    ensures NoDoubleUnderscore(r[|Prefix|..])
    ensures var n := NormalisedName(csvFileName);
      r[|Prefix|..] + (if EndsWith(n, "_csv") then "_csv" else "") == n
  {
    var n := NormalisedName(csvFileName);
    var stem := RemoveSuffix(n, "_csv");
    assert stem == n[..|stem|];
    ConcatenationParts(Prefix, stem);
    NoDoubleUnderscorePrefix(n, |stem|);
    Prefix + stem
  }

  /** A letter or digit in front passes through the collapse unchanged. */
  lemma CollapseAlnumCons(c: char, s: string)
    requires IsAsciiAlnum(c)
    ensures CollapseNonAlnumRuns([c] + s) == [c] + CollapseNonAlnumRuns(s)
  {
    var x := [c] + s;
    assert x[0] == c && x[1..] == s;
  }

  /** A word of letters and digits passes through the collapse unchanged. */
  lemma {:induction false} CollapseWord(w: string, rest: string)
    requires forall i :: 0 <= i < |w| ==> IsAsciiAlnum(w[i])
    ensures CollapseNonAlnumRuns(w + rest) == w + CollapseNonAlnumRuns(rest)
  {
    if w == [] {
      assert w + rest == rest;
    } else {
      var t := w[1..];
      CollapseWord(t, rest);
      CollapseAlnumCons(w[0], t + rest);
      assert [w[0]] + t == w;
      ConcatAssoc([w[0]], t, rest);
      ConcatAssoc([w[0]], t, CollapseNonAlnumRuns(rest));
    }
  }

  /** A whole run of other characters, up to the next letter or digit, becomes one `_`. */
  lemma {:induction false} CollapseSeparator(sep: string, rest: string)
    requires |sep| > 0 && forall i :: 0 <= i < |sep| ==> !IsAsciiAlnum(sep[i])
    requires rest == [] || IsAsciiAlnum(rest[0])
    ensures CollapseNonAlnumRuns(sep + rest) == "_" + CollapseNonAlnumRuns(rest)
  {
    ConcatTail(sep, rest);
    DropSeparator(sep[1..], rest);
  }

  /** Dropping the leading run removes exactly the separator. */
  lemma {:induction false} DropSeparator(sep: string, rest: string)
    requires forall i :: 0 <= i < |sep| ==> !IsAsciiAlnum(sep[i])
    requires rest == [] || IsAsciiAlnum(rest[0])
    ensures DropNonAlnumPrefix(sep + rest) == rest
  {
    if sep == [] {
      assert sep + rest == rest;
    } else {
      DropSeparator(sep[1..], rest);
      ConcatTail(sep, rest);
    }
  }

  /** Lower-casing distributes over concatenation. */
  lemma AsciiLowerAppend(x: string, y: string)
    ensures AsciiLower(x + y) == AsciiLower(x) + AsciiLower(y)
  {
    var l := AsciiLower(x + y);
    assert forall i :: 0 <= i < |x| ==> l[i] == LowerChar(x[i]);
    assert forall i :: |x| <= i < |x| + |y| ==> l[i] == LowerChar(y[i - |x|]);
  }

  /** A word of letters and digits is its own collapsed form. */
  lemma {:induction false} CollapseKeepsWord(w: string)
    requires forall i :: 0 <= i < |w| ==> IsAsciiAlnum(w[i])
    ensures CollapseNonAlnumRuns(w) == w
  {
    if w != [] {
      CollapseKeepsWord(w[1..]);
      ConsSplit(w);
      CollapseAlnumCons(w[0], w[1..]);
    }
  }

  /** Lower-casing works one character at a time. */
  lemma LowerCons(c: char, s: string)
    ensures AsciiLower([c] + s) == [LowerChar(c)] + AsciiLower(s)
  {
    ConcatTail([c], s);
  }

  /** A string with no upper-case ASCII letter is its own lower-case form. */
  lemma LowerKeepsLowerCase(s: string)
    requires forall i :: 0 <= i < |s| ==> !('A' <= s[i] <= 'Z')
    ensures AsciiLower(s) == s
  {
    var l := AsciiLower(s);
    assert forall i :: 0 <= i < |s| ==> l[i] == LowerChar(s[i]) == s[i];
  }

  /**
   * The naming rule word by word: a word, then a run of other characters,
   * then more name starting with a letter or digit, normalise to the word in
   * lower case, one `_`, and the normalised rest.
   */
  lemma NormalisedWordThen(w: string, sep: string, rest: string)
    requires forall i :: 0 <= i < |w| ==> IsAsciiAlnum(w[i])
    requires |sep| > 0 && forall i :: 0 <= i < |sep| ==> !IsAsciiAlnum(sep[i])
    requires rest == [] || IsAsciiAlnum(rest[0])
    ensures NormalisedName(w + (sep + rest)) == AsciiLower(w) + ("_" + NormalisedName(rest))
  {
    var c := CollapseNonAlnumRuns(rest);
    CollapseWord(w, sep + rest);
    CollapseSeparator(sep, rest);
    AsciiLowerAppend(w, "_" + c);
    LowerCons('_', c);
  }

  /** A last word already in lower case is its own normalised form. */
  lemma NormalisedLowerWord(w: string)
    requires forall i :: 0 <= i < |w| ==> IsAsciiAlnum(w[i]) && !('A' <= w[i] <= 'Z')
    ensures NormalisedName(w) == w
  {
    CollapseKeepsWord(w);
    LowerKeepsLowerCase(w);
  }

  /** Removing a suffix that was just appended gives back the stem. */
  lemma RemoveAppendedSuffix(stem: string, suffix: string)
    ensures RemoveSuffix(stem + suffix, suffix) == stem
  {
    var n := stem + suffix;
    assert n[|n| - |suffix|..] == suffix;
    assert n[..|n| - |suffix|] == stem;
  }

  /** A name that normalises to `<stem>_csv` becomes the table `bronze_<stem>`. */
  lemma TableNameOfCsvStem(csvFileName: string, stem: string)
    requires NormalisedName(csvFileName) == stem + "_csv"
    ensures GenerateTableName(csvFileName) == Prefix + stem
  {
    RemoveAppendedSuffix(stem, "_csv");
  }

  /*
   * Example: "Sales Report (2023).csv", cut into its words
   * ("Sales", "Report", "2023", "csv") and the runs between them
   * (" ", " (", ")."). Each step is its own lemma so that no proof has to
   * compute with a whole literal name.
   */
  lemma SalesReportPieces(a: string, s1: string, b: string, s2: string, d: string, s3: string, w: string)
    requires a == "Sales" && s1 == " " && b == "Report" && s2 == " (" && d == "2023" && s3 == ")." && w == "csv"
    ensures forall i :: 0 <= i < |a| ==> IsAsciiAlnum(a[i])
    ensures forall i :: 0 <= i < |b| ==> IsAsciiAlnum(b[i])
    ensures forall i :: 0 <= i < |d| ==> IsAsciiAlnum(d[i]) && !('A' <= d[i] <= 'Z')
    ensures forall i :: 0 <= i < |w| ==> IsAsciiAlnum(w[i]) && !('A' <= w[i] <= 'Z')
    ensures |s1| > 0 && forall i :: 0 <= i < |s1| ==> !IsAsciiAlnum(s1[i])
    ensures |s2| > 0 && forall i :: 0 <= i < |s2| ==> !IsAsciiAlnum(s2[i])
    ensures |s3| > 0 && forall i :: 0 <= i < |s3| ==> !IsAsciiAlnum(s3[i])
  {
    assert IsAsciiAlnum(a[0]) && IsAsciiAlnum(a[1]) && IsAsciiAlnum(a[2]) && IsAsciiAlnum(a[3]) && IsAsciiAlnum(a[4]);
    assert IsAsciiAlnum(b[0]) && IsAsciiAlnum(b[1]) && IsAsciiAlnum(b[2]) && IsAsciiAlnum(b[3]) && IsAsciiAlnum(b[4]) && IsAsciiAlnum(b[5]);
    assert d[0] == '2' && d[1] == '0' && d[2] == '2' && d[3] == '3';
    assert w[0] == 'c' && w[1] == 's' && w[2] == 'v';
    assert !IsAsciiAlnum(s1[0]) && !IsAsciiAlnum(s2[0]) && !IsAsciiAlnum(s2[1]);
    assert !IsAsciiAlnum(s3[0]) && !IsAsciiAlnum(s3[1]);
  }

  /** The first word, lower-cased. */
  lemma LowerSales(a: string)
    requires a == "Sales"
    ensures AsciiLower(a) == "sales"
  {
    var l := AsciiLower(a);
    assert l[0] == LowerChar(a[0]) == 's';
    assert l[1] == a[1] && l[2] == a[2] && l[3] == a[3] && l[4] == a[4];
  }

  /** The second word, lower-cased. */
  lemma LowerReport(b: string)
    requires b == "Report"
    ensures AsciiLower(b) == "report"
  {
    var l := AsciiLower(b);
    assert l[0] == LowerChar(b[0]) == 'r';
    assert l[1] == b[1] && l[2] == b[2] && l[3] == b[3] && l[4] == b[4] && l[5] == b[5];
  }

  /** The normalised example, word by word. */
  lemma SalesReportNormalised(a: string, s1: string, b: string, s2: string, d: string, s3: string, w: string)
    requires a == "Sales" && s1 == " " && b == "Report" && s2 == " (" && d == "2023" && s3 == ")." && w == "csv"
    ensures NormalisedName(a + (s1 + (b + (s2 + (d + (s3 + w))))))
         == AsciiLower(a) + ("_" + (AsciiLower(b) + ("_" + (d + ("_" + w)))))
  {
    SalesReportPieces(a, s1, b, s2, d, s3, w);
    var t3 := s3 + w;
    var t2 := d + t3;
    var t1 := s2 + t2;
    var t0 := b + t1;
    NormalisedLowerWord(w);
    NormalisedWordThen(d, s3, w);
    LowerKeepsLowerCase(d);
    assert t2[0] == d[0];
    NormalisedWordThen(b, s2, t2);
    assert t0[0] == b[0];
    NormalisedWordThen(a, s1, t0);
  }

  /** Regrouping `l1_l2_d_w` as the stem `l1_l2_d` followed by `_w`. */
  lemma SalesReportRegrouped(l1: string, l2: string, d: string, w: string)
    ensures l1 + ("_" + (l2 + ("_" + (d + ("_" + w)))))
         == (l1 + ("_" + (l2 + ("_" + d)))) + ("_" + w)
  {
    var x := "_" + w;
    ConcatAssoc("_", d, x);
    ConcatAssoc(l2, "_" + d, x);
    ConcatAssoc("_", l2 + ("_" + d), x);
    ConcatAssoc(l1, "_" + (l2 + ("_" + d)), x);
  }

  /** The example's table name and removed suffix, spelled out. */
  lemma SalesReportSpelling(l1: string, l2: string, d: string, w: string)
    requires l1 == "sales" && l2 == "report" && d == "2023" && w == "csv"
    ensures Prefix + (l1 + ("_" + (l2 + ("_" + d)))) == "bronze_sales_report_2023"
    ensures "_" + w == "_csv"
  {
  }

  /**
   * Example: "Sales Report (2023).csv" becomes the table
   * `bronze_sales_report_2023`. Collapsing and lower-casing yield `sales_report_2023_csv`
   * and only the final `_csv` is stripped, so no trailing `_` remains.
   */
  lemma SalesReportExample(a: string, s1: string, b: string, s2: string, d: string, s3: string, w: string)
    requires a == "Sales" && s1 == " " && b == "Report" && s2 == " (" && d == "2023" && s3 == ")." && w == "csv"
    ensures GenerateTableName(a + (s1 + (b + (s2 + (d + (s3 + w)))))) == "bronze_sales_report_2023"
  {
    var name := a + (s1 + (b + (s2 + (d + (s3 + w)))));
    var l1, l2 := AsciiLower(a), AsciiLower(b);
    SalesReportNormalised(a, s1, b, s2, d, s3, w);
    SalesReportRegrouped(l1, l2, d, w);
    LowerSales(a);
    LowerReport(b);
    SalesReportSpelling(l1, l2, d, w);
    TableNameOfCsvStem(name, l1 + ("_" + (l2 + ("_" + d))));
  }
}
