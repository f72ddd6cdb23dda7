/**
 * The choices `create_table_from_csv` makes before it hands a CSV to Spark:
 * which file to read, how the columns are renamed, which description the
 * table gets and under which name and path it is saved; and the notebook's
 * per-file step that feeds `pre_process_csv`'s result into it.
 *
 * The Spark reader and writer are not modelled: the column names the reader
 * infers are a parameter, and the result is the plan of what is written.
 */
module TableLoad {
  import opened Wrappers
  import opened PyStr
  import opened CsvInspection
  import opened TableNaming
  import opened HeaderRepair

  /** `c.replace(" ", "_")`: the alias each column is selected under. */
  function ColumnAlias(c: string): (r: string)
    ensures |r| == |c|
    ensures ' ' !in r
    ensures forall i :: 0 <= i < |c| ==> r[i] == (if c[i] == ' ' then '_' else c[i])
  {
    Replace(c, ' ', '_')
  }

  /** Only spaces change: a name without one is kept exactly, parentheses and dashes included. */
  lemma ColumnAliasUnchangedIff(c: string)
    ensures ColumnAlias(c) == c <==> ' ' !in c
  {
    if ' ' !in c {
      var r := ColumnAlias(c);
      assert forall i :: 0 <= i < |c| ==> r[i] == c[i];
    }
  }

  /** Renaming twice is renaming once. */
  lemma ColumnAliasIdempotent(c: string)
    ensures ColumnAlias(ColumnAlias(c)) == ColumnAlias(c)
  {
    ColumnAliasUnchangedIff(ColumnAlias(c));
  }

  /** The `df.select` of `create_table_from_csv`: every column, in order, under its alias. */
  function RenameColumns(columns: seq<string>): (r: seq<string>)
    ensures |r| == |columns|
    ensures forall i :: 0 <= i < |r| ==> r[i] == ColumnAlias(columns[i])
    ensures forall i :: 0 <= i < |r| ==> ' ' !in r[i] && |r[i]| == |columns[i]|
  {
    seq(|columns|, i requires 0 <= i < |columns| => ColumnAlias(columns[i]))
  }

  /** Renaming keeps the column names that had no space and only those. */
  lemma RenameColumnsUnchangedIff(columns: seq<string>)
    ensures RenameColumns(columns) == columns <==> forall i :: 0 <= i < |columns| ==> ' ' !in columns[i]
  {
    var r := RenameColumns(columns);
    forall i | 0 <= i < |columns|
      ensures r[i] == columns[i] <==> ' ' !in columns[i]
    {
      ColumnAliasUnchangedIff(columns[i]);
    }
  }

  /**
   * Two distinct column names can get the same alias (`"a b"` and `"a_b"`):
   * the rename does not keep names apart.
   */
  lemma RenameCanMergeColumns(x: string, y: string)
    requires x == "a b" && y == "a_b"
    ensures x != y && ColumnAlias(x) == ColumnAlias(y)
  {
    assert x[1] != y[1];
    var r, s := ColumnAlias(x), ColumnAlias(y);
    assert r[0] == s[0] && r[1] == s[1] && r[2] == s[2];
  }

  const CreationNote: string := "Table schema and data created automatically from "

  /** `create_table_from_csv`'s description: the table comment, with the caller's description appended after " . " when given. */
  function TableDescription(sourcePath: string, description: string): (r: string)
    ensures CreationNote + sourcePath <= r
    ensures description == "" <==> r == CreationNote + sourcePath
    ensures description != "" ==> r[|CreationNote + sourcePath|..] == " . " + description
  {
    var note := CreationNote + sourcePath;
    if description != "" then
      var r := note + " . " + description;
      assert r[..|note|] == note;
      assert r[|note|..] == " . " + description;
      r
    else note
  }

  /** What `create_table_from_csv` reads, and what and where it writes. */
  datatype LoadPlan = LoadPlan(
    inputPath: string,
    delimiter: char,
    columns: seq<string>,
    description: string,
    tableName: string,
    tablePath: string)

  /**
   * `create_table_from_csv` up to the Spark calls. `baseName` stands for
   * `ntpath.basename(source_filepath)` and `columns` for the column names
   * the CSV reader infers.
   */
  method CreateTableFromCsv(sourcePath: string, catalog: string, db: string, tmpCsvPath: string,
                            tableName: string, delimiter: char, description: string,
                            baseName: string, columns: seq<string>)
    returns (plan: LoadPlan)
    ensures plan.inputPath == (if tmpCsvPath != "" then tmpCsvPath else sourcePath)
    ensures plan.delimiter == delimiter
    ensures plan.columns == RenameColumns(columns)
    ensures plan.description == TableDescription(sourcePath, description)
    ensures tableName != "" ==> plan.tableName == tableName
    ensures tableName == "" ==> plan.tableName == GenerateTableName(baseName)
    ensures tableName == "" ==> Prefix <= plan.tableName
    ensures tableName == "" ==>
      forall i :: |Prefix| <= i < |plan.tableName| ==> IsTableNameChar(plan.tableName[i])
    ensures plan.tablePath == catalog + "." + db + "." + plan.tableName
  {
    var inputFilePath: string;
    if tmpCsvPath != "" {
      inputFilePath := tmpCsvPath;
    } else {
      inputFilePath := sourcePath;
    }
    var desc := TableDescription(sourcePath, description);
    var renamed := RenameColumns(columns);
    var name := tableName;
    if name == "" {
      name := GenerateTableName(baseName);
    }
    var tablePath := catalog + "." + db + "." + name;
    plan := LoadPlan(inputFilePath, delimiter, renamed, desc, name, tablePath);
  }

  /** A file of the listing as the notebook sees it: its path, its base name, what Spark reads of it. */
  datatype CsvFile = CsvFile(
    path: string,
    baseName: string,
    head: string,
    wholeText: string,
    columns: seq<string>)

  /**
   * What loading `f` at time `now` into `catalog.db` plans: nothing when its
   * header has no delimiter; otherwise read the temporary copy exactly when
   * the header needed repair, split on the header's first delimiter, and save
   * under the name derived from the file name with the default description.
   */
  function PlannedLoad(catalog: string, db: string, f: CsvFile, now: nat): (r: Option<LoadPlan>)
    ensures r.None? <==> FindDelimiter(HeaderOf(f.head)).Failure?
    ensures r.Some? ==> r.value.delimiter == FindDelimiter(HeaderOf(f.head)).value
    ensures r.Some? && NeedsRepair(HeaderOf(f.head)) ==>
      r.value.inputPath == TempCsvPath(RemoveSuffix(f.baseName, ".csv"), DataBucket, now)
    ensures r.Some? && !NeedsRepair(HeaderOf(f.head)) ==> r.value.inputPath == f.path
    ensures r.Some? ==> r.value.columns == RenameColumns(f.columns)
    ensures r.Some? ==> r.value.description == TableDescription(f.path, "")
    ensures r.Some? ==> r.value.tableName == GenerateTableName(f.baseName)
    ensures r.Some? ==> Prefix <= r.value.tableName
    ensures r.Some? ==> forall i :: |Prefix| <= i < |r.value.tableName| ==> IsTableNameChar(r.value.tableName[i])
    ensures r.Some? ==> forall k :: 0 <= k < |r.value.columns| ==> ' ' !in r.value.columns[k]
    ensures r.Some? ==> r.value.tablePath == catalog + "." + db + "." + r.value.tableName
  {
    var header := HeaderOf(f.head);
    match FindDelimiter(header)
    case Failure(_) => None
    case Success(d) =>
      var input := if NeedsRepair(header) then TempCsvPath(RemoveSuffix(f.baseName, ".csv"), DataBucket, now) else f.path;
      var name := GenerateTableName(f.baseName);
      Some(LoadPlan(input, d, RenameColumns(f.columns), TableDescription(f.path, ""), name, catalog + "." + db + "." + name))
  }

  /** A header of letters, digits and delimiters only is never rewritten: the table is read from the file itself. */
  lemma PlainHeaderReadsSource(catalog: string, db: string, f: CsvFile, now: nat)
    requires IsPlainHeader(HeaderOf(f.head))
    ensures PlannedLoad(catalog, db, f, now).Some? ==> PlannedLoad(catalog, db, f, now).value.inputPath == f.path
  {
    var h := HeaderOf(f.head);
    NoSpecialInPlainHeader(h);
    assert '\r' !in h by {
      forall i | 0 <= i < |h| ensures h[i] != '\r' {
        assert IsAsciiAlnum(h[i]) || IsDelimiter(h[i]);
      }
    }
    assert !NeedsRepair(h);
  }

  /**
   * A carriage return inside an otherwise plain header, with at least one
   * character before it and two after it, sends the load through the
   * temporary copy named after the file and the clock.
   */
  lemma EmbeddedCarriageReturnReadsTemp(catalog: string, db: string, f: CsvFile, now: nat, a: string, b: string)
    requires IsPlainHeader(a) && IsPlainHeader(b) && |a| > 0 && |b| >= 2
    requires HeaderOf(f.head) == a + "\r" + b
    ensures PlannedLoad(catalog, db, f, now).Some? ==>
      PlannedLoad(catalog, db, f, now).value.inputPath == TempCsvPath(RemoveSuffix(f.baseName, ".csv"), DataBucket, now)
  {
    CarriageReturnPositionDecides(a, b);
  }

  /**
   * One pass of the notebook's loop: pre-process, then create the table from
   * the temporary file if one was written. A header without a delimiter
   * stops the step before any table is created.
   */
  method LoadCsvFile(catalog: string, db: string, f: CsvFile, now: nat)
    returns (r: Result<LoadPlan, InspectionError>)
    ensures r.Failure? <==> PlannedLoad(catalog, db, f, now).None?
    ensures r.Success? ==> r.value == PlannedLoad(catalog, db, f, now).value
  {
    var pre := PreProcessCsv(f.head, f.wholeText, f.baseName, now);
    if pre.Failure? {
      return Failure(pre.error);
    }
    var plan := CreateTableFromCsv(f.path, catalog, db, pre.value.tmpPath, "",
                                   pre.value.delimiter, "", f.baseName, f.columns);
    r := Success(plan);
  }

  /**
   * The notebook's loop over a listing, `times[i]` being the clock when the
   * i-th file is pre-processed. A file whose header has no delimiter raises
   * and ends the whole loop: the files before it are loaded, none after it.
   */
  method LoadCsvFiles(catalog: string, db: string, files: seq<CsvFile>, times: seq<nat>)
    returns (plans: seq<LoadPlan>, stoppedAt: Option<nat>)
    requires |times| == |files|
    ensures |plans| <= |files|
    ensures forall i :: 0 <= i < |plans| ==>
      PlannedLoad(catalog, db, files[i], times[i]) == Some(plans[i])
    ensures stoppedAt.None? ==> |plans| == |files|
    ensures stoppedAt.Some? ==> stoppedAt.value == |plans| < |files|
    ensures stoppedAt.Some? ==> PlannedLoad(catalog, db, files[stoppedAt.value], times[stoppedAt.value]).None?
    ensures stoppedAt.None? <==> forall i :: 0 <= i < |files| ==> PlannedLoad(catalog, db, files[i], times[i]).Some?
  {
    plans := [];
    stoppedAt := None;
    var i := 0;
    while i < |files|
      invariant i == |plans| <= |files|
      invariant forall j :: 0 <= j < i ==> PlannedLoad(catalog, db, files[j], times[j]) == Some(plans[j])
    {
      var r := LoadCsvFile(catalog, db, files[i], times[i]);
      if r.Failure? {
        stoppedAt := Some(i);
        return;
      }
      PlansExtend(catalog, db, files, times, plans, r.value);
      plans := plans + [r.value];
      i := i + 1;
    }
  }

  /** Appending the next file's plan keeps every earlier plan matched to its file. */
  lemma PlansExtend(catalog: string, db: string, files: seq<CsvFile>, times: seq<nat>,
                    plans: seq<LoadPlan>, p: LoadPlan)
    requires |plans| < |files| == |times|
    requires forall j :: 0 <= j < |plans| ==> PlannedLoad(catalog, db, files[j], times[j]) == Some(plans[j])
    requires PlannedLoad(catalog, db, files[|plans|], times[|plans|]) == Some(p)
    ensures forall j :: 0 <= j < |plans| + 1 ==> PlannedLoad(catalog, db, files[j], times[j]) == Some((plans + [p])[j])
  {
  }
}
