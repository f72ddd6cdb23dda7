/**
 * The header inspection and repair of `pre_process_csv`: split the header off
 * a bounded prefix of the file, detect the delimiter, decide whether the
 * header needs repair and, if so, build the repaired file content and the
 * timestamped path of the temporary CSV it is written to (`create_temp_csv`).
 *
 * The file-system reads and the clock are parameters: `head` is what the
 * 2000-byte read returned, `wholeText` what the whole-text read returns,
 * `now` the integer timestamp and `baseName` the file's base name.
 */
module HeaderRepair {
  import opened Wrappers
  import opened PyStr
  import opened CsvInspection

  /** The notebook's `data_bucket`, where temporary CSVs go. */
  const DataBucket: string := "s3a://trase-storage"

  /** `content.split("\n")[0]`: the longest prefix of `content` without a newline. */
  function HeaderOf(content: string): (h: string)
    ensures h <= content && '\n' !in h
    ensures |h| < |content| ==> content[|h|] == '\n'
  {
    var p := Find(content, '\n');
    if p == -1 then content else content[..p]
  }

  /** The newline offset is the header's length, when there is a newline. */
  lemma NewlineOffsetIsHeaderLength(content: string)
    requires '\n' in content
    ensures Find(content, '\n') == |HeaderOf(content)|
  {
  }

  /**
   * The repair decision: the FIRST carriage return sits at an index `p` with
   * `0 < p < len(header) - 2`, or the header has a special character.
   */
  predicate NeedsRepair(header: string): (b: bool)
    ensures (exists i :: 0 <= i < |header| && IsSpecial(header[i])) ==> b
    ensures b ==> |header| > 0 && ('\r' in header[1..] || exists i :: 0 <= i < |header| && IsSpecial(header[i]))
  {
    var p := Find(header, '\r');
    var specials := NonAlphanumericChars(header);
    assert |specials| > 0 ==> specials[0] in header && IsSpecial(specials[0]);
    assert forall i :: 0 <= i < |header| && IsSpecial(header[i]) ==> header[i] in specials;
    assert p > 0 ==> header[1..][p - 1] == '\r';
    (p > 0 && p < |header| - 2) || |specials| > 0
  }

  /** The repair decision in terms of the header's characters alone. */
  lemma NeedsRepairIff(header: string)
    ensures NeedsRepair(header) <==>
      (exists p :: 0 < p < |header| - 2 && header[p] == '\r' && '\r' !in header[..p]) ||
      (exists i :: 0 <= i < |header| && IsSpecial(header[i]))
  {
    var p := Find(header, '\r');
    var specials := NonAlphanumericChars(header);
    if exists i :: 0 <= i < |header| && IsSpecial(header[i]) {
      var i :| 0 <= i < |header| && IsSpecial(header[i]);
      assert header[i] in specials;
    }
    if |specials| > 0 {
      assert specials[0] in header && IsSpecial(specials[0]);
      var i :| 0 <= i < |header| && header[i] == specials[0];
      assert IsSpecial(header[i]);
    }
  }

  /** What `pre_process_csv`'s `header.replace(..., "_")` calls do to one header character. */
  function SanitizeChar(c: char): char
  {
    if c == '\r' || IsSpecial(c) then '_' else c
  }

  /** What those calls and the `header.replace(" ", "_")` in `new_content` do to one header character. */
  function FinalChar(c: char): char
  {
    if c == ' ' then '_' else SanitizeChar(c)
  }

  /** The header after the `header.replace(..., "_")` calls: carriage returns and special characters become `_`. */
  function SanitizedHeader(header: string): (r: string)
    ensures |r| == |header|
    ensures forall i :: 0 <= i < |header| ==> r[i] == SanitizeChar(header[i])
    ensures '\r' !in r
  {
    seq(|header|, i requires 0 <= i < |header| => SanitizeChar(header[i]))
  }

  /** The header line written to the repaired file (the first operand of `new_content`). */
  function FinalHeader(header: string): (r: string)
    ensures |r| == |header|
    ensures forall i :: 0 <= i < |header| ==> r[i] == FinalChar(header[i])
    ensures forall i :: 0 <= i < |header| && (IsAsciiAlnum(header[i]) || IsDelimiter(header[i])) ==> r[i] == header[i]
    ensures forall i :: 0 <= i < |r| ==> r[i] != '\r' && r[i] != ' ' && !IsSpecial(r[i])
  {
    Replace(SanitizedHeader(header), ' ', '_')
  }

  /** Repairing a repaired header changes nothing. */
  lemma FinalHeaderIdempotent(header: string)
    ensures FinalHeader(FinalHeader(header)) == FinalHeader(header)
  {
    var r := FinalHeader(header);
    assert forall i :: 0 <= i < |r| ==> FinalChar(r[i]) == r[i];
  }

  /** The rewrite is a no-op exactly on headers with no CR, space or special character. */
  lemma FinalHeaderUnchangedIff(header: string)
    ensures FinalHeader(header) == header <==>
      forall i :: 0 <= i < |header| ==> header[i] != '\r' && header[i] != ' ' && !IsSpecial(header[i])
  {
    if FinalHeader(header) == header {
      forall i | 0 <= i < |header|
        ensures header[i] != '\r' && header[i] != ' ' && !IsSpecial(header[i])
      {
        assert FinalHeader(header)[i] == header[i];
      }
    }
  }

  /** What `new_content` does to each character after the header. */
  function CrToSpace(c: char): char
  {
    if c == '\r' then ' ' else c
  }

  /**
   * `new_content`: the final header followed by the whole text from the newline
   * offset on (Python slicing, so -1 means the last character), with every
   * carriage return turned into a space.
   */
  function RepairedContent(header: string, wholeText: string, returnPos: int): (r: string)
    ensures |r| == |header| + |wholeText| - SliceStart(|wholeText|, returnPos)
    ensures r[..|header|] == FinalHeader(header)
    ensures forall i :: |header| <= i < |r| ==>
      r[i] == CrToSpace(wholeText[SliceStart(|wholeText|, returnPos) + (i - |header|)])
    ensures '\r' !in r
  {
    var tail := SliceFrom(wholeText, returnPos);
    ConcatenationParts(FinalHeader(header), Replace(tail, '\r', ' '));
    ReplacedTailAt(FinalHeader(header), wholeText, SliceStart(|wholeText|, returnPos));
    FinalHeader(header) + Replace(tail, '\r', ' ')
  }

  /** Past the header, the repaired text is the whole text from `n` on, with carriage returns made spaces. */
  lemma ReplacedTailAt(f: string, wholeText: string, n: nat)
    requires n <= |wholeText|
    ensures var r := f + Replace(wholeText[n..], '\r', ' ');
      forall i :: |f| <= i < |r| ==> r[i] == CrToSpace(wholeText[n + (i - |f|)])
  {
    var tail := wholeText[n..];
    var rt := Replace(tail, '\r', ' ');
    var r := f + rt;
    forall i | |f| <= i < |r|
      ensures r[i] == CrToSpace(wholeText[n + (i - |f|)])
    {
      var k := i - |f|;
      assert r[i] == rt[k];
      assert rt[k] == CrToSpace(tail[k]);
    }
  }

  /**
   * When the prefix holds a newline and is a prefix of the whole text, the
   * repaired file has the original's length, differs from it in the header
   * line only by the character rewrite, and elsewhere only in that carriage
   * returns became spaces; the newline ending the header is kept.
   */
  lemma {:induction false} RepairIsPositional(head: string, wholeText: string)
    requires head <= wholeText
    requires '\n' in head
    ensures var h := HeaderOf(head);
      var r := RepairedContent(h, wholeText, Find(head, '\n'));
      && |r| == |wholeText|
      && wholeText[|h|] == '\n' && r[|h|] == '\n'
      && (forall i :: 0 <= i < |h| ==> r[i] == FinalChar(wholeText[i]))
      && (forall i :: |h| <= i < |r| ==> r[i] == CrToSpace(wholeText[i]))
  {
    var h := HeaderOf(head);
    var p := Find(head, '\n');
    NewlineOffsetIsHeaderLength(head);
    assert SliceStart(|wholeText|, p) == |h|;
    var r := RepairedContent(h, wholeText, p);
    forall i | 0 <= i < |h|
      ensures r[i] == FinalChar(wholeText[i])
    {
      assert r[..|h|][i] == FinalHeader(h)[i];
      assert h[i] == head[i] == wholeText[i];
    }
    assert wholeText[|h|] == head[|h|] == '\n';
  }

  /**
   * Without a newline in the prefix, `return_pos` is -1 and `content[-1:]`
   * keeps only the last character of the whole text: the header (the whole
   * prefix) is followed by that one character and the rest of the file is lost.
   */
  lemma MissingNewlineKeepsLastCharacter(head: string, wholeText: string)
    requires '\n' !in head
    ensures RepairedContent(HeaderOf(head), wholeText, Find(head, '\n')) ==
      FinalHeader(head) + (if wholeText == [] then [] else [CrToSpace(wholeText[|wholeText| - 1])])
  {
    var r := RepairedContent(HeaderOf(head), wholeText, Find(head, '\n'));
    assert HeaderOf(head) == head;
    assert r[..|head|] == FinalHeader(head);
  }

  /** `create_temp_csv`'s path: `{data_bucket}/tmp/{file_name}_TS{current_time}.csv`. */
  function TempCsvPath(fileName: string, dataBucket: string, now: nat): (p: string)
    ensures EndsWith(p, ".csv")
    ensures dataBucket + "/tmp/" <= p
  {
    dataBucket + "/tmp/" + fileName + "_TS" + NatToDecimal(now) + ".csv"
  }

  /** For one file name and bucket, the path tells the timestamp apart (and only the timestamp). */
  lemma TempCsvPathTimestamp(fileName: string, dataBucket: string, m: nat, n: nat)
    ensures TempCsvPath(fileName, dataBucket, m) == TempCsvPath(fileName, dataBucket, n) <==> m == n
  {
    var pre := dataBucket + "/tmp/" + fileName + "_TS";
    var a, b := TempCsvPath(fileName, dataBucket, m), TempCsvPath(fileName, dataBucket, n);
    if a == b {
      assert a == pre + NatToDecimal(m) + ".csv";
      assert b == pre + NatToDecimal(n) + ".csv";
      assert a[|pre|..|a| - 4] == NatToDecimal(m);
      assert b[|pre|..|b| - 4] == NatToDecimal(n);
      NatToDecimalInjective(m, n);
    }
  }

  datatype TempFile = TempFile(path: string, content: string)

  /**
   * What `pre_process_csv` returns (the delimiter and the temporary path, ""
   * when there was no repair), together with the file it wrote, if any.
   */
  datatype Preprocessed = Preprocessed(delimiter: char, tmpPath: string, written: Option<TempFile>)

  /**
   * The `header.replace` calls and the `for char in non_alphn` loop: every carriage return, then each listed character, becomes
   * `_`. The listed characters are the header's special characters in
   * whatever order the list comes in.
   */
  method ReplaceSpecialChars(header: string, nonAlphn: seq<char>) returns (cleaned: string)
    requires forall c :: c in nonAlphn <==> c in header && IsSpecial(c)
    ensures cleaned == SanitizedHeader(header)
  {
    cleaned := Replace(header, '\r', '_');
    for k := 0 to |nonAlphn|
      invariant |cleaned| == |header|
      invariant forall i :: 0 <= i < |header| ==>
        cleaned[i] == if header[i] == '\r' || header[i] in nonAlphn[..k] then '_' else header[i]
    {
      assert nonAlphn[..k + 1] == nonAlphn[..k] + [nonAlphn[k]];
      cleaned := Replace(cleaned, nonAlphn[k], '_');
    }
    assert nonAlphn[..|nonAlphn|] == nonAlphn;
  }

  /** `pre_process_csv`. */
  method PreProcessCsv(head: string, wholeText: string, baseName: string, now: nat)
    returns (r: Result<Preprocessed, InspectionError>)
    ensures var header := HeaderOf(head);
      && (r.Failure? <==> FindDelimiter(header).Failure?)
      && (r.Success? ==> r.value.delimiter == FindDelimiter(header).value)
      && (r.Success? ==> (r.value.tmpPath != "" <==> NeedsRepair(header)))
      && (r.Success? && !NeedsRepair(header) ==> r.value.written == None)
      && (r.Success? && NeedsRepair(header) ==>
            && r.value.tmpPath == TempCsvPath(RemoveSuffix(baseName, ".csv"), DataBucket, now)
            && r.value.written == Some(TempFile(r.value.tmpPath,
                                                RepairedContent(header, wholeText, Find(head, '\n')))))
  {
    var returnPos := Find(head, '\n');
    var header := HeaderOf(head);
    var delimiter := FindDelimiter(header);
    if delimiter.Failure? {
      return Failure(delimiter.error);
    }
    var newCsvPath := "";
    var written := None;
    var findPos := Find(header, '\r');
    var nonAlphn := NonAlphanumericChars(header);
    if (findPos > 0 && findPos < |header| - 2) || |nonAlphn| > 0 {
      var cleaned := ReplaceSpecialChars(header, nonAlphn);
      var newContent := Replace(cleaned, ' ', '_') + Replace(SliceFrom(wholeText, returnPos), '\r', ' ');
      var newCsvName := RemoveSuffix(baseName, ".csv");
      newCsvPath := TempCsvPath(newCsvName, DataBucket, now);
      assert |newCsvPath| > 0 by {
        assert EndsWith(newCsvPath, ".csv");
      }
      written := Some(TempFile(newCsvPath, newContent));
    }
    r := Success(Preprocessed(delimiter.value, newCsvPath, written));
  }

  /** `str.find` of a character lands on its first occurrence. */
  lemma {:induction false} FindFirstOccurrence(a: string, c: char, b: string)
    requires c !in a
    ensures Find(a + [c] + b, c) == |a|
  {
    var s := a + [c] + b;
    if a == [] {
      assert s[0] == c;
    } else {
      FindFirstOccurrence(a[1..], c, b);
      assert s[0] == a[0] && s[0] != c;
      assert s[1..] == a[1..] + [c] + b;
    }
  }

  /** Letters, digits and delimiters: what the repair keeps and never reacts to. */
  predicate IsPlainHeader(s: string)
  {
    forall i :: 0 <= i < |s| ==> IsAsciiAlnum(s[i]) || IsDelimiter(s[i])
  }

  /**
   * For a header with one carriage return between plain parts `a` and `b`,
   * repair happens exactly when the carriage return is neither first nor one
   * of the last two characters: a CRLF line ending (`b` empty) is left alone.
   */
  lemma CarriageReturnPositionDecides(a: string, b: string)
    requires IsPlainHeader(a) && IsPlainHeader(b)
    ensures NeedsRepair(a + "\r" + b) <==> |a| > 0 && |b| >= 2
  {
    var h := a + "\r" + b;
    assert '\r' !in a;
    FindFirstOccurrence(a, '\r', b);
    assert forall i :: 0 <= i < |h| ==> IsAsciiAlnum(h[i]) || IsDelimiter(h[i]) || h[i] == '\r';
    NoSpecialInPlainHeader(h);
  }

  /** Such a carriage return becomes a single `_` and nothing else changes. */
  lemma EmbeddedCarriageReturnBecomesUnderscore(a: string, b: string)
    requires IsPlainHeader(a) && IsPlainHeader(b)
    ensures FinalHeader(a + "\r" + b) == a + "_" + b
  {
    var h, e := a + "\r" + b, a + "_" + b;
    var r := FinalHeader(h);
    forall i | 0 <= i < |h|
      ensures r[i] == e[i]
    {
      if i < |a| {
        assert h[i] == a[i] == e[i];
      } else if i == |a| {
        assert h[i] == '\r';
      } else {
        assert h[i] == b[i - |a| - 1] == e[i];
      }
    }
  }

  /** Example: the two halves of the header `id;name` CR `;amount` are plain. */
  lemma ExampleIsPlain(a: string, b: string)
    requires a == "id;name" && b == ";amount"
    ensures IsPlainHeader(a) && IsPlainHeader(b)
  {
    assert a[0] == 'i' && a[1] == 'd' && a[2] == ';' && a[3] == 'n' && a[4] == 'a' && a[5] == 'm' && a[6] == 'e';
    assert b[0] == ';' && b[1] == 'a' && b[2] == 'm' && b[3] == 'o' && b[4] == 'u' && b[5] == 'n' && b[6] == 't';
  }

  /** Example: that header's delimiter is the `;` at index 2, before the carriage return. */
  lemma ExampleDelimiter(a: string, b: string)
    requires a == "id;name" && b == ";amount"
    ensures FindDelimiter(a + ("\r" + b)) == Success(';')
  {
    assert !IsDelimiter(a[0]) && !IsDelimiter(a[1]) && IsDelimiter(a[2]);
    assert FirstDelimiterIndex(a) == Some(2);
    DelimiterOfPrefix(a, "\r" + b);
  }

  /** Example: that header repaired, spelled out. */
  lemma ExampleFinalHeader(a: string, b: string)
    requires a == "id;name" && b == ";amount"
    ensures FinalHeader(a + "\r" + b) == "id;name_;amount"
  {
    ExampleIsPlain(a, b);
    EmbeddedCarriageReturnBecomesUnderscore(a, b);
  }

  /**
   * Example: header `id;name` CR `;amount`: the carriage return at
   * index 7 triggers a repair, `;` is the delimiter and the repaired header is
   * `id;name_;amount` (the delimiters are kept).
   */
  lemma EmbeddedCarriageReturnExample(a: string, b: string)
    requires a == "id;name" && b == ";amount"
    ensures NeedsRepair(a + "\r" + b)
    ensures FindDelimiter(a + "\r" + b) == Success(';')
    ensures FinalHeader(a + "\r" + b) == "id;name_;amount"
  {
    ExampleIsPlain(a, b);
    CarriageReturnPositionDecides(a, b);
    ExampleDelimiter(a, b);
    ConcatAssoc(a, "\r", b);
    ExampleFinalHeader(a, b);
  }

  /** The same header ending in a CRLF (`id;name` CR) is left alone. */
  lemma TrailingCarriageReturnExample(a: string)
    requires a == "id;name"
    ensures !NeedsRepair(a + "\r")
  {
    ExampleIsPlain(a, ";amount");
    CarriageReturnPositionDecides(a, "");
    assert a + "\r" + "" == a + "\r";
  }
}
