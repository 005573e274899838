/**
 * The ACS batch driver: it reads each `acs*.json` file of the raw
 * directory, treats a document with a `variables` key as metadata and any
 * other as a data table, and writes one processed file per success into the
 * output directory. The raw directory is a map from file name to content.
 */
module BatchPp {
  import opened Wrappers
  import opened Strings
  import opened Json
  import opened Paths
  import opened AcsHelpers

  // ---------------------------------------------------------------------
  // extract_acs_metadata
  // ---------------------------------------------------------------------

  const JsonSuffix: string := ".json"

  /** `acs`, four ASCII digits and `_`: the part of `acs(\d{4})_(.+)\.json` before the identifier. */
  predicate NamePrefix(b: string) {
    |b| >= 8 && b[..3] == "acs" && AllDigits(b[3..7]) && b[7] == '_'
  }

  /** The pattern matches the start of `b` with the identifier ending at `j` (`.` does not match a newline). */
  predicate MatchEndsAt(b: string, j: nat) {
    NamePrefix(b) && 9 <= j && OccursAt(b, JsonSuffix, j) && '\n' !in b[8..j]
  }

  /** The first newline at or after `lo`, or the end of `s`. */
  function LineEnd(s: string, lo: nat): (e: nat)
    requires lo <= |s|
    ensures lo <= e <= |s| && '\n' !in s[lo..e] && (e == |s| || s[e] == '\n')
    decreases |s| - lo
  {
    if lo == |s| || s[lo] == '\n' then lo
    else
      var e := LineEnd(s, lo + 1);
      assert s[lo..e] == [s[lo]] + s[lo + 1..e];
      e
  }

  /** The last index at or after `lo` where `p` occurs. */
  function LastOccurrence(s: string, p: string, lo: nat): (r: Option<nat>)
    ensures r.Some? ==> lo <= r.value && OccursAt(s, p, r.value)
    ensures r.Some? ==> forall i: nat :: r.value < i ==> !OccursAt(s, p, i)
    ensures r.None? ==> forall i: nat :: lo <= i ==> !OccursAt(s, p, i)
    decreases |s| - lo
  {
    if lo + |p| > |s| then None
    else
      var later := LastOccurrence(s, p, lo + 1);
      if later.Some? then later
      else if OccursAt(s, p, lo) then Some(lo)
      else None
  }

  /**
   * `extract_acs_metadata`: the year and identifier of a file named
   * `acs<yyyy>_<identifier>.json`, or `None` (`(None, None)` in the source).
   */
  function ExtractAcsMetadata(filename: string): (r: Option<(nat, string)>)
    ensures r.Some? ==> |r.value.1| > 0
  {
    var b := Basename(filename);
    if !NamePrefix(b) then None
    else
      var last := LastOccurrence(b[..LineEnd(b, 8)], JsonSuffix, 9);
      if last.None? then None
      else Some((DigitsValue(b[3..7]), b[8..last.value]))
  }

  /**
   * The pattern is anchored at the start only and `.+` is greedy: a name
   * parses exactly when the pattern matches its basename, the year is the
   * number its four digits spell, and the identifier runs up to the last
   * `.json` the pattern can end at; whatever follows that `.json` is ignored.
   */
  lemma ExtractAcsMetadataSpec(filename: string)
    ensures var b := Basename(filename);
      ExtractAcsMetadata(filename).Some? <==> exists j: nat :: MatchEndsAt(b, j)
    ensures var b := Basename(filename); var r := ExtractAcsMetadata(filename);
      r.Some? ==>
        && NamePrefix(b)
        && r.value.0 == DigitsValue(b[3..7])
        && exists j: nat :: MatchEndsAt(b, j) && r.value.1 == b[8..j] && forall i: nat :: j < i ==> !MatchEndsAt(b, i)
  {
    var b := Basename(filename);
    if NamePrefix(b) {
      MatchWithinLine(b, LineEnd(b, 8));
    }
  }

  /** A match ends inside the first line after the prefix, and only there. */
  lemma MatchWithinLine(b: string, e: nat)
    requires NamePrefix(b) && 8 <= e <= |b| && '\n' !in b[8..e] && (e == |b| || b[e] == '\n')
    ensures forall j: nat :: MatchEndsAt(b, j) <==> 9 <= j && OccursAt(b[..e], JsonSuffix, j)
  {
    forall j: nat ensures MatchEndsAt(b, j) <==> 9 <= j && OccursAt(b[..e], JsonSuffix, j) {
      if 9 <= j && j + 5 <= |b| {
        if j + 5 <= e {
          assert b[..e][j..j + 5] == b[j..j + 5];
          assert b[8..j] == b[8..e][..j - 8];
        } else if j <= e {
          assert b[j..j + 5][e - j] == '\n';
        } else {
          assert b[e] in b[8..j];
        }
      }
    }
  }

  /** A pattern that ends the text is its last occurrence. */
  lemma LastOccurrenceAtEnd(s: string, p: string, lo: nat)
    requires lo + |p| <= |s| && OccursAt(s, p, |s| - |p|)
    ensures LastOccurrence(s, p, lo) == Some(|s| - |p|)
  {
  }

  /** A name built as `acs` + four digits + `_` + identifier + `.json` gives those back. */
  lemma ExtractRoundTrip(digits: string, id: string)
    requires |digits| == 4 && AllDigits(digits)
    requires id != [] && '\n' !in id && '/' !in id
    ensures ExtractAcsMetadata("acs" + digits + "_" + id + JsonSuffix) == Some((DigitsValue(digits), id))
  {
    var b := "acs" + digits + "_" + id + JsonSuffix;
    assert b[..3] == "acs" && b[3..7] == digits && b[7] == '_';
    assert b[8..] == id + JsonSuffix;
    assert '/' !in b by {
      assert b == "acs" + digits + "_" + b[8..];
    }
    assert '\n' !in b[8..];
    assert LineEnd(b, 8) == |b|;
    assert b[..|b|] == b;
    assert b[|b| - 5..] == JsonSuffix;
    LastOccurrenceAtEnd(b, JsonSuffix, 9);
    assert b[8..|b| - 5] == id;
  }

  // ---------------------------------------------------------------------
  // process_acs_file
  // ---------------------------------------------------------------------

  /** A file of the raw directory: its text and what `json.loads` makes of it (`None`: not JSON). */
  datatype RawFile = RawFile(text: string, parsed: Option<Value>)

  /** What the driver writes: the processed metadata, or a processed data table. */
  datatype OutputFile = MetadataCsv(metadata: MdTable) | ProcessedCsv(table: ParsedTable)

  /** Why `process_acs_file` returned `False`. */
  datatype BatchError =
    | BadFileName                 // the name does not parse, or its year is 0
    | NoSuchFile
    | EmptyFile                   // size 0
    | BlankFile                   // only whitespace
    | InvalidJson
    | NotSearchable               // `'variables' in data` raises TypeError
    | MetadataError(e: AcsError)  // `parse_md` raised
    | NoSidecar                   // neither `_md.json` nor `_metadata.json` exists
    | InvalidSidecar              // the sidecar is not JSON
    | NoDesc2                     // the parsed metadata has no `desc_2` column
    | NotATable                   // `read_json` does not give a table of string cells
    | TableError(e: AcsError)     // `parse_acs` raised

  /** `f"acs{year}_{identifier}"`: the year is printed back as a number, without leading zeros. */
  function OutputStem(year: nat, id: string): (r: string)
    ensures StartsWith(r, "acs") && EndsWith(r, "_" + id) && |r| > |id| + 4
    ensures AllDigits(r[3..|r| - |id| - 1]) && DigitsValue(r[3..|r| - |id| - 1]) == year
  {
    var r := "acs" + NatToString(year) + "_" + id;
    assert r[3..|r| - |id| - 1] == NatToString(year);
    assert r[|r| - |id| - 1..] == "_" + id;
    NatToStringValue(year);
    r
  }

  /** The metadata file of a data file: `_md.json` first, then `_metadata.json`. */
  function Sidecar(stem: string, raw: map<string, RawFile>): (r: Option<string>)
    ensures r.Some? ==> r.value in raw
    ensures stem + "_md.json" in raw ==> r == Some(stem + "_md.json")
    ensures stem + "_md.json" !in raw && stem + "_metadata.json" in raw ==> r == Some(stem + "_metadata.json")
    ensures r.None? <==> stem + "_md.json" !in raw && stem + "_metadata.json" !in raw
  {
    if stem + "_md.json" in raw then Some(stem + "_md.json")
    else if stem + "_metadata.json" in raw then Some(stem + "_metadata.json")
    else None
  }

  /** `desc_2` of a metadata row, as f-string formatting prints it (`None` for a missing segment). */
  function Desc2Text(row: MdRow): string {
    if |row.descs| >= 2 && row.descs[1].Some? then row.descs[1].value else "None"
  }

  /** `{col: f"{col}_{desc}" for col, desc in zip(metadata['column'], metadata['desc_2'])}` */
  function ColumnMap(rows: seq<MdRow>): (r: seq<(string, string)>)
    ensures |r| == |rows|
  {
    seq(|rows|, k requires 0 <= k < |rows| => (rows[k].column, rows[k].column + "_" + Desc2Text(rows[k])))
  }

  function CellOf(v: Value): Option<Cell> {
    match v
    case JStr(s) => Some(Some(s))
    case JNull => Some(None)
    case _ => None
  }

  function ReadRow(items: seq<Value>): (r: Option<seq<Cell>>)
    ensures r.Some? ==> |r.value| == |items| && forall j :: 0 <= j < |items| ==> CellOf(items[j]) == Some(r.value[j])
  {
    if items == [] then Some([])
    else
      var c :- CellOf(items[0]);
      var rest :- ReadRow(items[1..]);
      assert forall j :: 1 <= j < |items| ==> items[j] == items[1..][j - 1];
      Some([c] + rest)
  }

  function ReadRows(rows: seq<Value>): (r: Option<seq<seq<Cell>>>)
    ensures r.Some? ==> |r.value| == |rows|
  {
    if rows == [] then Some([])
    else
      var first :- if rows[0].JArr? then ReadRow(rows[0].items) else None;
      var rest :- ReadRows(rows[1..]);
      Some([first] + rest)
  }

  /** `pd.read_json` of a list of rows of strings and nulls. */
  function ReadTable(data: Value): (r: Option<seq<seq<Cell>>>)
    ensures r.Some? ==> data.JArr? && |r.value| == |data.items|
  {
    if data.JArr? then ReadRows(data.items) else None
  }

  /** The checks every file goes through before its JSON is classified; gives the year, identifier and document. */
  function ReadableFile(name: string, raw: map<string, RawFile>): (r: Result<(nat, string, Value), BatchError>)
    ensures r.Success? ==> && r.value.0 > 0 && ExtractAcsMetadata(name) == Some((r.value.0, r.value.1))
                           && name in raw && Strip(raw[name].text) != [] && raw[name].parsed == Some(r.value.2)
    ensures r.Failure? ==> r.error in {BadFileName, NoSuchFile, EmptyFile, BlankFile, InvalidJson}
  {
    match ExtractAcsMetadata(name)
    case None => Failure(BadFileName)
    case Some((year, id)) =>
      if year == 0 then Failure(BadFileName)
      else if name !in raw then Failure(NoSuchFile)
      else if raw[name].text == [] then Failure(EmptyFile)
      else if Strip(raw[name].text) == [] then Failure(BlankFile)
      else if raw[name].parsed.None? then Failure(InvalidJson)
      else Success((year, id, raw[name].parsed.value))
  }

  /** The data path: sidecar metadata, column map, `parse_acs`, `year` column. */
  function DataOutcome(stem: string, year: nat, data: Value, raw: map<string, RawFile>): (r: Result<OutputFile, BatchError>)
    ensures r.Success? ==> r.value.ProcessedCsv? && Sidecar(stem, raw).Some? && ReadTable(data).Some?
    ensures r.Failure? ==> r.error !in {BadFileName, NoSuchFile, EmptyFile, BlankFile, InvalidJson, NotSearchable}
  {
    match Sidecar(stem, raw)
    case None => Failure(NoSidecar)
    case Some(side) =>
      match raw[side].parsed
      case None => Failure(InvalidSidecar)
      case Some(mdDoc) =>
        match ParseMetadata(mdDoc)
        case Failure(e) => Failure(MetadataError(e))
        case Success(md) =>
          if md.descCount < 2 then Failure(NoDesc2)
          else
            match ReadTable(data)
            case None => Failure(NotATable)
            case Some(table) =>
              match ParseAcs(table, ColumnMap(md.rows))
              case Failure(e) => Failure(TableError(e))
              case Success(t) => Success(ProcessedCsv(SetYear(t, year)))
  }

  /**
   * The outcome of `process_acs_file`: the name and content of the file it
   * writes, or why it returns `False`. Every exception becomes a failure.
   */
  function FileOutcome(name: string, raw: map<string, RawFile>): (r: Result<(string, OutputFile), BatchError>)
    ensures r.Success? ==> ReadableFile(name, raw).Success? && StartsWith(r.value.0, "acs")
    ensures r.Success? ==> (r.value.1.MetadataCsv? <==> MemberTest(ReadableFile(name, raw).value.2, "variables") == Some(true))
  {
    var (year, id, data) :- ReadableFile(name, raw);
    var stem := OutputStem(year, id);
    match MemberTest(data, "variables")
    case None => Failure(NotSearchable)
    case Some(true) =>
      (match ParseMetadata(data)
       case Failure(e) => Failure(MetadataError(e))
       case Success(md) => Success((stem + "_metadata.csv", MetadataCsv(md))))
    case Some(false) =>
      var out :- DataOutcome(stem, year, data, raw);
      Success((stem + "_processed.csv", out))
  }

  /** What processing one file comes to: the file written, or why nothing was. */
  type Outcome = Result<(string, OutputFile), BatchError>

  /** The output directory after one outcome: the output written on success, untouched otherwise. */
  function Written(written: map<string, OutputFile>, outcome: Outcome): map<string, OutputFile> {
    match outcome
    case Success((path, content)) => written[path := content]
    case Failure(_) => written
  }

  /** The directory of processed files. */
  class OutputDir {
    var files: map<string, OutputFile>

    constructor()
      ensures files == map[]
    {
      files := map[];
    }
  }

  /** The early-return checks of `process_acs_file`, in the order the source makes them. */
  method ReadRawFile(name: string, raw: map<string, RawFile>) returns (r: Result<(nat, string, Value), BatchError>)
    ensures r == ReadableFile(name, raw)
  {
    var meta := ExtractAcsMetadata(name);
    if meta.None? || meta.value.0 == 0 {
      return Failure(BadFileName);
    }
    if name !in raw {
      return Failure(NoSuchFile);
    }
    if raw[name].text == [] {
      return Failure(EmptyFile);
    }
    var content := Strip(raw[name].text);
    if content == [] {
      return Failure(BlankFile);
    }
    if raw[name].parsed.None? {
      return Failure(InvalidJson);
    }
    return Success((meta.value.0, meta.value.1, raw[name].parsed.value));
  }

  /** The data branch of `process_acs_file`: sidecar, `parse_md`, column map, `parse_acs`, `year`. */
  method ProcessDataFile(stem: string, year: nat, data: Value, raw: map<string, RawFile>)
    returns (r: Result<OutputFile, BatchError>)
    ensures r == DataOutcome(stem, year, data, raw)
  {
    var side := Sidecar(stem, raw);
    if side.None? {
      return Failure(NoSidecar);
    }
    if raw[side.value].parsed.None? {
      return Failure(InvalidSidecar);
    }
    var md := ParseMd(raw[side.value].parsed.value);
    if md.Failure? {
      return Failure(MetadataError(md.error));
    }
    if md.value.descCount < 2 {
      return Failure(NoDesc2);
    }
    var table := ReadTable(data);
    if table.None? {
      return Failure(NotATable);
    }
    var parsed := ParseAcs(table.value, ColumnMap(md.value.rows));
    if parsed.Failure? {
      return Failure(TableError(parsed.error));
    }
    return Success(ProcessedCsv(SetYear(parsed.value, year)));
  }

  /** `process_acs_file`: the early-return checks, the metadata or data path, and the write. */
  method ProcessAcsFile(name: string, raw: map<string, RawFile>, out: OutputDir) returns (ok: bool)
    modifies out
    ensures ok <==> FileOutcome(name, raw).Success?
    ensures out.files == Written(old(out.files), FileOutcome(name, raw))
  {
    var read := ReadRawFile(name, raw);
    if read.Failure? {
      return false;
    }
    var (year, id, data) := read.value;
    var stem := OutputStem(year, id);
    var isMetadata := MemberTest(data, "variables");
    if isMetadata.None? {
      return false;
    }
    var path: string;
    var output: OutputFile;
    if isMetadata.value {
      var md := ParseMd(data);
      if md.Failure? {
        return false;
      }
      path, output := stem + "_metadata.csv", MetadataCsv(md.value);
    } else {
      var processed := ProcessDataFile(stem, year, data, raw);
      if processed.Failure? {
        return false;
      }
      path, output := stem + "_processed.csv", processed.value;
    }
    out.files := out.files[path := output];
    ok := true;
  }

  // ---------------------------------------------------------------------
  // batch_process_acs
  // ---------------------------------------------------------------------

  /** `glob(raw_dir / "acs*.json")`: the names starting with `acs` and ending with `.json`, in listing order. */
  function AcsFiles(listing: seq<string>): (r: seq<string>)
    ensures |r| <= |listing|
  {
    if listing == [] then []
    else
      var f := listing[0];
      (if |f| >= 8 && StartsWith(f, "acs") && EndsWith(f, JsonSuffix) then [f] else []) + AcsFiles(listing[1..])
  }

  /** The glob keeps exactly the listed names that start with `acs` and end with `.json`. */
  lemma {:induction false} AcsFilesMembers(listing: seq<string>)
    ensures forall f :: f in AcsFiles(listing) <==> f in listing && |f| >= 8 && StartsWith(f, "acs") && EndsWith(f, JsonSuffix)
  {
    if listing != [] {
      AcsFilesMembers(listing[1..]);
      assert forall g :: g in listing <==> g == listing[0] || g in listing[1..];
    }
  }

  /** `process_acs_file` over the raw directory, as a function of the file name. */
  function Process(raw: map<string, RawFile>): string -> Outcome {
    name => FileOutcome(name, raw)
  }

  /** The outcome of each file, in order. */
  function Outcomes(files: seq<string>, process: string -> Outcome): (r: seq<Outcome>)
    ensures |r| == |files|
  {
    if files == [] then []
    else Outcomes(files[..|files| - 1], process) + [process(files[|files| - 1])]
  }

  /** The k-th outcome is that of the k-th file. */
  lemma {:induction false} OutcomesAt(files: seq<string>, process: string -> Outcome)
    ensures forall k :: 0 <= k < |files| ==> Outcomes(files, process)[k] == process(files[k])
    decreases |files|
  {
    if files != [] {
      var front := files[..|files| - 1];
      OutcomesAt(front, process);
      assert forall k :: 0 <= k < |front| ==> front[k] == files[k];
    }
  }

  /** How many of the outcomes are successes. */
  function Successes(outcomes: seq<Outcome>): nat {
    if outcomes == [] then 0
    else Successes(outcomes[..|outcomes| - 1]) + (if outcomes[|outcomes| - 1].Success? then 1 else 0)
  }

  /** The output directory after the outcomes, in order. */
  function WrittenAll(written: map<string, OutputFile>, outcomes: seq<Outcome>): map<string, OutputFile> {
    if outcomes == [] then written
    else Written(WrittenAll(written, outcomes[..|outcomes| - 1]), outcomes[|outcomes| - 1])
  }

  /** One turn of the batch loop: `process_acs_file` on the i-th matching file. */
  method ProcessNext(files: seq<string>, i: nat, raw: map<string, RawFile>, out: OutputDir) returns (ok: bool)
    requires i < |files|
    modifies out
    ensures ok <==> Outcomes(files, Process(raw))[i].Success?
    ensures out.files == Written(old(out.files), Outcomes(files, Process(raw))[i])
  {
    ok := ProcessAcsFile(files[i], raw, out);
    OutcomesAt(files, Process(raw));
  }

  /**
   * `batch_process_acs`: nothing happens without a repository root or when
   * no file matches; otherwise every matching file is processed in turn and
   * the report is (successes, files).
   */
  method BatchProcessAcs(repoRoot: Option<string>, listing: seq<string>, raw: map<string, RawFile>, out: OutputDir)
    returns (report: Option<(nat, nat)>)
    modifies out
    ensures report.None? <==> repoRoot.None? || repoRoot.value == [] || AcsFiles(listing) == []
    ensures report.None? ==> out.files == old(out.files)
    ensures report.Some? ==> report.value == (Successes(Outcomes(AcsFiles(listing), Process(raw))), |AcsFiles(listing)|)
    ensures report.Some? ==> out.files == WrittenAll(old(out.files), Outcomes(AcsFiles(listing), Process(raw)))
  {
    if repoRoot.None? || repoRoot.value == [] {
      return None;
    }
    var files := AcsFiles(listing);
    if files == [] {
      return None;
    }
    ghost var outcomes := Outcomes(files, Process(raw));
    var successCount := 0;
    for i := 0 to |files|
      invariant successCount == Successes(outcomes[..i])
      invariant out.files == WrittenAll(old(out.files), outcomes[..i])
    {
      assert outcomes[..i + 1][..i] == outcomes[..i];
      var ok := ProcessNext(files, i, raw, out);
      if ok {
        successCount := successCount + 1;
      }
    }
    assert outcomes[..|files|] == outcomes;
    report := Some((successCount, |files|));
  }

  // ---------------------------------------------------------------------
  // Properties
  // ---------------------------------------------------------------------

  /** The success count is at most the number of outcomes, and equals it exactly when every one is a success. */
  lemma {:induction false} SuccessesBounded(outcomes: seq<Outcome>)
    ensures Successes(outcomes) <= |outcomes|
    ensures Successes(outcomes) == |outcomes| <==> forall k :: 0 <= k < |outcomes| ==> outcomes[k].Success?
    decreases |outcomes|
  {
    if outcomes != [] {
      var front := outcomes[..|outcomes| - 1];
      SuccessesBounded(front);
      assert forall k :: 0 <= k < |front| ==> front[k] == outcomes[k];
    }
  }

  /** The batch reports every file processed exactly when every file's outcome is a success. */
  lemma AllProcessed(files: seq<string>, process: string -> Outcome)
    ensures Successes(Outcomes(files, process)) <= |files|
    ensures Successes(Outcomes(files, process)) == |files| <==> forall f :: f in files ==> process(f).Success?
  {
    var o := Outcomes(files, process);
    OutcomesAt(files, process);
    SuccessesBounded(o);
    if Successes(o) == |files| {
      forall f | f in files ensures process(f).Success? {
        var k :| 0 <= k < |files| && files[k] == f;
        assert o[k].Success?;
      }
    }
  }

  /** Processing outcomes in turn overwrites the directory with the outputs they produce. */
  lemma {:induction false} WrittenAllOverride(written: map<string, OutputFile>, outcomes: seq<Outcome>)
    ensures WrittenAll(written, outcomes) == written + WrittenAll(map[], outcomes)
    decreases |outcomes|
  {
    if outcomes != [] {
      WrittenAllOverride(written, outcomes[..|outcomes| - 1]);
    }
  }

  /** Running the batch a second time over the same raw directory leaves the output directory as it was. */
  lemma BatchRerunUnchanged(written: map<string, OutputFile>, o: seq<Outcome>)
    ensures WrittenAll(WrittenAll(written, o), o) == WrittenAll(written, o)
  {
    var w := WrittenAll(map[], o);
    WrittenAllOverride(written, o);
    WrittenAllOverride(written + w, o);
    assert (written + w) + w == written + w;
  }

  /** Every output file is either one that was there before or the output of a file that succeeded. */
  lemma {:induction false} OutputsFromSuccesses(written: map<string, OutputFile>, outcomes: seq<Outcome>, path: string)
    requires path in WrittenAll(written, outcomes)
    ensures path in written ||
      exists k :: 0 <= k < |outcomes| && outcomes[k].Success? && outcomes[k].value.0 == path
    decreases |outcomes|
  {
    if outcomes != [] {
      var front := outcomes[..|outcomes| - 1];
      var last := outcomes[|outcomes| - 1];
      if !(last.Success? && last.value.0 == path) {
        OutputsFromSuccesses(written, front, path);
        assert forall k :: 0 <= k < |front| ==> front[k] == outcomes[k];
      }
    }
  }

  /**
   * A file is rejected before its JSON is looked at when its name does not
   * parse, its year is 0, it is missing, it is empty or blank, or it is not JSON.
   */
  lemma EarlyRejections(name: string, raw: map<string, RawFile>)
    requires || ExtractAcsMetadata(name).None?
             || ExtractAcsMetadata(name).value.0 == 0
             || name !in raw
             || Strip(raw[name].text) == []
             || raw[name].parsed.None?
    ensures FileOutcome(name, raw).Failure?
    ensures FileOutcome(name, raw).error in {BadFileName, NoSuchFile, EmptyFile, BlankFile, InvalidJson}
  {
    if name in raw && raw[name].text == [] {
      assert Strip(raw[name].text) == [];
    }
  }

  /** `acs0000_x.json` matches the pattern, with year 0. */
  lemma YearZeroParses(id: string)
    requires id != [] && '\n' !in id && '/' !in id
    ensures ExtractAcsMetadata("acs0000_" + id + JsonSuffix) == Some((0, id))
  {
    ZeroYearDigits();
    ExtractRoundTrip("0000", id);
    ZeroYearName(id);
  }

  lemma ZeroYearName(id: string)
    ensures "acs" + "0000" + "_" + id + JsonSuffix == "acs0000_" + id + JsonSuffix
  {
  }

  lemma ZeroYearDigits()
    ensures AllDigits("0000") && DigitsValue("0000") == 0
  {
    assert "0000"[..3] == "000" && "000"[..2] == "00" && "00"[..1] == "0" && "0"[..0] == "";
  }

  /** Year 0 is falsy in the source, so `acs0000_x.json` is rejected whatever the directory holds. */
  lemma YearZeroRejected(id: string, raw: map<string, RawFile>)
    requires id != [] && '\n' !in id && '/' !in id
    ensures FileOutcome("acs0000_" + id + JsonSuffix, raw) == Failure(BadFileName)
  {
    YearZeroParses(id);
  }

  /**
   * A readable document with a `variables` key is processed as metadata and
   * written as `acs<year>_<id>_metadata.csv`; any other searchable document is
   * a data table written as `acs<year>_<id>_processed.csv`.
   */
  lemma OutputNames(name: string, raw: map<string, RawFile>)
    requires FileOutcome(name, raw).Success?
    ensures ReadableFile(name, raw).Success?
    ensures var (year, id, data) := ReadableFile(name, raw).value;
      && ExtractAcsMetadata(name) == Some((year, id))
      && MemberTest(data, "variables").Some?
      && (MemberTest(data, "variables").value ==>
            FileOutcome(name, raw).value == (OutputStem(year, id) + "_metadata.csv", MetadataCsv(ParseMetadata(data).value)))
      && (!MemberTest(data, "variables").value ==>
            FileOutcome(name, raw).value.0 == OutputStem(year, id) + "_processed.csv"
            && FileOutcome(name, raw).value.1.ProcessedCsv?)
  {
    var rf := ReadableFile(name, raw);
    assert rf.Success?;
    var (year, id, data) := rf.value;
    assert ExtractAcsMetadata(name) == Some((year, id));
  }

  /**
   * A data file succeeds only with a sidecar (the `_md.json` one when both
   * exist) whose parsed metadata has a `desc_2` column; the processed table
   * keeps the columns the metadata codes select, each renamed from code `c`
   * to `c_<desc_2>`, and carries the file's year under `year` in every row.
   */
  lemma DataFileOutput(stem: string, year: nat, data: Value, raw: map<string, RawFile>)
    requires DataOutcome(stem, year, data, raw).Success?
    ensures Sidecar(stem, raw).Some?
    ensures var side := Sidecar(stem, raw).value;
      && raw[side].parsed.Some?
      && ParseMetadata(raw[side].parsed.value).Success?
      && var md := ParseMetadata(raw[side].parsed.value).value;
      && md.descCount >= 2
      && ReadTable(data).Some?
      && var table := ReadTable(data).value;
      && var t := ParseAcs(table, ColumnMap(md.rows)).value;
      && t.columns == Names(Selected(table[0], ColumnMap(md.rows)))
      && DataOutcome(stem, year, data, raw).value == ProcessedCsv(SetYear(t, year))
      && (forall k :: 0 <= k < |md.rows| ==>
            ColumnMap(md.rows)[k] == (md.rows[k].column, md.rows[k].column + "_" + Desc2Text(md.rows[k])))
      && var out := SetYear(t, year);
      && YearColumn in out.columns
      && forall k, j :: 0 <= k < |out.rows| && 0 <= j < |out.columns| && out.columns[j] == YearColumn ==>
           out.rows[k].values[j] == year
  {
    var side := Sidecar(stem, raw).value;
    var md := ParseMetadata(raw[side].parsed.value).value;
    var table := ReadTable(data).value;
    ParseAcsRows(table, ColumnMap(md.rows));
    var t := ParseAcs(table, ColumnMap(md.rows)).value;
    assert Rectangular(t);
    SetYearStamps(t, year);
  }
}
