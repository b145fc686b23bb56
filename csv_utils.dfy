/**
 * `parseCSVFile` and `handleFileUpload` of src/lib/utils/csvUtils.ts: timestamp and aoi
 * columns are required, x and y are optional, ids count the data lines from 1, and the
 * groups come back sorted by label.
 */
module CsvUtils {
  import opened Wrappers
  import opened Text
  import opened Sequences
  import opened Fixations
  import opened CsvText

  /** The message thrown when the timestamp or the aoi column is missing. */
  const MISSING_COLUMNS: string := "CSV must contain columns for timestamp and aoi"

  /** The column positions found in the header; -1 where no cell matches. */
  datatype Columns = Columns(timestamp: int, aoi: int, x: int, y: int)

  /** Each position is that of the first header cell containing the column's name, or -1. */
  function FindColumns(header: seq<string>): (c: Columns)
    ensures -1 <= c.timestamp < |header| && -1 <= c.aoi < |header|
    ensures -1 <= c.x < |header| && -1 <= c.y < |header|
    ensures c.timestamp == -1 <==> forall i :: 0 <= i < |header| ==> !Contains(header[i], "timestamp")
    ensures c.aoi == -1 <==> forall i :: 0 <= i < |header| ==> !Contains(header[i], "aoi")
    ensures FirstContaining(header, "timestamp", c.timestamp) && FirstContaining(header, "aoi", c.aoi)
    ensures FirstContaining(header, "x", c.x) && FirstContaining(header, "y", c.y)
  {
    Columns(FindIndex(header, "timestamp"), FindIndex(header, "aoi"), FindIndex(header, "x"), FindIndex(header, "y"))
  }

  /**
   * One data line at position `index`, or `None` when it has no AOI cell (reading `split` of
   * `undefined` throws). The id is index + 1; x and y are added together, and only when both
   * columns exist and both cells parse.
   */
  function ParseRow(line: string, index: nat, columns: Columns,
                    parseInt: string -> Option<int>, parseFloat: string -> Option<real>)
    : (r: Option<Fixation>)
    ensures r.None? <==> Cell(Split(line, ','), columns.aoi).None?
    ensures r.Some? ==>
      && r.value.id == index + 1
      && r.value.aoi == ParseAois(Split(line, ',')[columns.aoi])
      && r.value.timestamp == ParseCell(Cell(Split(line, ','), columns.timestamp), parseInt)
      && (r.value.x.Some? <==> r.value.y.Some?)
      && (r.value.x.Some? <==>
            && columns.x != -1 && columns.y != -1
            && ParseCell(Cell(Split(line, ','), columns.x), parseFloat).Some?
            && ParseCell(Cell(Split(line, ','), columns.y), parseFloat).Some?)
      && (r.value.x.Some? ==>
            && r.value.x == ParseCell(Cell(Split(line, ','), columns.x), parseFloat)
            && r.value.y == ParseCell(Cell(Split(line, ','), columns.y), parseFloat))
  {
    var cells := Split(line, ',');
    match Cell(cells, columns.aoi)
    case None => None
    case Some(aoiCell) =>
      var fixation := Fixation(index + 1, ParseCell(Cell(cells, columns.timestamp), parseInt),
                               ParseAois(aoiCell), None, None);
      if columns.x != -1 && columns.y != -1 then
        var x := ParseCell(Cell(cells, columns.x), parseFloat);
        var y := ParseCell(Cell(cells, columns.y), parseFloat);
        if x.Some? && y.Some? then Some(fixation.(x := x, y := y)) else Some(fixation)
      else
        Some(fixation)
  }

  /**
   * The callback `map` applies to every data line: a line fails exactly when it has no AOI
   * cell, and a parsed line's id is its position plus one.
   */
  function RowParser(columns: Columns, parseInt: string -> Option<int>, parseFloat: string -> Option<real>)
    : (parse: (string, nat) -> Option<Fixation>)
    ensures forall line, index: nat :: parse(line, index).None? <==> !(0 <= columns.aoi < |Split(line, ',')|)
    ensures forall line, index: nat :: parse(line, index).Some? ==> parse(line, index).value.id == index + 1
  {
    (line: string, index: nat) => ParseRow(line, index, columns, parseInt, parseFloat)
  }

  /**
   * `parseCSVFile` from the non-blank lines on: no line throws reading the header, a missing
   * timestamp or aoi column throws its message, a data line without an AOI cell throws, and
   * otherwise the group holds one fixation per data line under the file's label.
   */
  function ParseLines(name: string, lines: seq<string>, parseInt: string -> Option<int>,
                      parseFloat: string -> Option<real>)
    : (r: Result<FixationGroup, CsvError>)
    ensures r == Failure(NoHeaderLine) <==> lines == []
    ensures r == Failure(Error(MISSING_COLUMNS)) <==>
      lines != [] && (FindColumns(Header(lines[0])).timestamp == -1 || FindColumns(Header(lines[0])).aoi == -1)
    ensures r.Failure? ==>
      r.error == NoHeaderLine || r.error == Error(MISSING_COLUMNS) || r.error.MissingAoiCell?
    ensures r.Success? ==> r.value.groupLabel == FileLabel(name) && |r.value.fixations| == |lines| - 1
  {
    if lines == [] then Failure(NoHeaderLine)
    else
      var columns := FindColumns(Header(lines[0]));
      if columns.timestamp == -1 || columns.aoi == -1 then Failure(Error(MISSING_COLUMNS))
      else
        match ParseRows(lines[1..], 0, RowParser(columns, parseInt, parseFloat))
        case Failure(e) => Failure(e)
        case Success(fixations) => Success(FixationGroup(FileLabel(name), fixations))
  }

  /** `parseCSVFile` after `file.text()`: the header read fails exactly when every line is blank. */
  function ParseCsvFile(file: CsvFile, parseInt: string -> Option<int>, parseFloat: string -> Option<real>)
    : (r: Result<FixationGroup, CsvError>)
    ensures r == Failure(NoHeaderLine) <==> forall line :: line in Split(file.text, '\n') ==> IsBlank(line)
  {
    NoHeaderIffBlank(file.text);
    ParseLines(file.name, NonBlankLines(file.text), parseInt, parseFloat)
  }

  /**
   * On success, fixation k comes from data line k (the (k + 2)-th non-blank line): its id is
   * k + 1, its labels are its AOI cell split on ';' and trimmed, and x and y come together.
   */
  lemma ParseLinesRows(name: string, lines: seq<string>, parseInt: string -> Option<int>,
                       parseFloat: string -> Option<real>, k: nat)
    requires ParseLines(name, lines, parseInt, parseFloat).Success?
    requires k < |ParseLines(name, lines, parseInt, parseFloat).value.fixations|
    ensures var columns := FindColumns(Header(lines[0]));
      var f := ParseLines(name, lines, parseInt, parseFloat).value.fixations[k];
      && ParseRow(lines[k + 1], k, columns, parseInt, parseFloat) == Some(f)
      && f.id == k + 1
      && f.aoi == ParseAois(Split(lines[k + 1], ',')[columns.aoi])
      && (f.x.Some? <==> f.y.Some?)
  {
    var columns := FindColumns(Header(lines[0]));
    var fs := ParseLines(name, lines, parseInt, parseFloat).value.fixations;
    assert ParseRows(lines[1..], 0, RowParser(columns, parseInt, parseFloat)) == Success(fs);
    assert lines[1..][k] == lines[k + 1];
  }

  /** The first data line with too few cells for the AOI column makes the file fail with its position. */
  lemma MissingAoiCellFails(name: string, lines: seq<string>, parseInt: string -> Option<int>,
                            parseFloat: string -> Option<real>, k: nat)
    requires lines != []
    requires FindColumns(Header(lines[0])).timestamp != -1 && FindColumns(Header(lines[0])).aoi != -1
    requires k + 1 < |lines|
    requires |Split(lines[k + 1], ',')| <= FindColumns(Header(lines[0])).aoi
    requires forall j :: 0 < j <= k ==> |Split(lines[j], ',')| > FindColumns(Header(lines[0])).aoi
    ensures ParseLines(name, lines, parseInt, parseFloat) == Failure(MissingAoiCell(k))
  {
    var data := lines[1..];
    assert forall j :: 0 <= j <= k ==> data[j] == lines[j + 1];
    RowsFailAt(data, FindColumns(Header(lines[0])), parseInt, parseFloat, k);
  }

  /**
   * Which files parse: exactly those with a header line naming the timestamp and aoi columns
   * whose every data line has a cell at the AOI column's position.
   */
  lemma ParseLinesSuccessIff(name: string, lines: seq<string>, parseInt: string -> Option<int>,
                             parseFloat: string -> Option<real>)
    ensures ParseLines(name, lines, parseInt, parseFloat).Success? <==>
      && lines != []
      && FindColumns(Header(lines[0])).timestamp != -1 && FindColumns(Header(lines[0])).aoi != -1
      && forall j :: 0 < j < |lines| ==> |Split(lines[j], ',')| > FindColumns(Header(lines[0])).aoi
  {
    if lines != [] {
      var columns := FindColumns(Header(lines[0]));
      if columns.timestamp != -1 && columns.aoi != -1 {
        var data := lines[1..];
        RowsSucceedIff(data, columns, parseInt, parseFloat);
        assert forall j :: 0 < j < |lines| ==> lines[j] == data[j - 1];
      }
    }
  }

  /** Over the data lines alone: every row parses exactly when every line reaches the AOI column. */
  lemma RowsSucceedIff(data: seq<string>, columns: Columns, parseInt: string -> Option<int>,
                        parseFloat: string -> Option<real>)
    requires columns.aoi >= 0
    ensures ParseRows(data, 0, RowParser(columns, parseInt, parseFloat)).Success? <==>
      forall j :: 0 <= j < |data| ==> |Split(data[j], ',')| > columns.aoi
  {
    forall j | 0 <= j < |data|
      ensures RowParser(columns, parseInt, parseFloat)(data[j], 0 + j).Some? <==> |Split(data[j], ',')| > columns.aoi
    {
      ShortRowFails(data[j], j, columns, parseInt, parseFloat);
    }
  }

  /** Over the data lines alone: the first line too short for the AOI column is the one named. */
  lemma RowsFailAt(data: seq<string>, columns: Columns, parseInt: string -> Option<int>,
                   parseFloat: string -> Option<real>, k: nat)
    requires columns.aoi >= 0 && k < |data|
    requires |Split(data[k], ',')| <= columns.aoi
    requires forall j :: 0 <= j < k ==> |Split(data[j], ',')| > columns.aoi
    ensures ParseRows(data, 0, RowParser(columns, parseInt, parseFloat)) == Failure(MissingAoiCell(k))
  {
    var parse := RowParser(columns, parseInt, parseFloat);
    forall j | 0 <= j < k ensures parse(data[j], 0 + j).Some? {
      ShortRowFails(data[j], j, columns, parseInt, parseFloat);
    }
    ShortRowFails(data[k], k, columns, parseInt, parseFloat);
    ParseRowsFirstFailure(data, 0, parse, k);
  }

  /** A data line fails exactly when it has no more cells than the AOI column's position. */
  lemma ShortRowFails(line: string, index: nat, columns: Columns,
                      parseInt: string -> Option<int>, parseFloat: string -> Option<real>)
    requires columns.aoi >= 0
    ensures ParseRow(line, index, columns, parseInt, parseFloat).None? <==> |Split(line, ',')| <= columns.aoi
  {
  }

  /** The callback `Promise.all` waits for on every ".csv" file. */
  function FileParser(parseInt: string -> Option<int>, parseFloat: string -> Option<real>)
    : (parse: CsvFile -> Result<FixationGroup, CsvError>)
    ensures forall f :: parse(f) != Failure(Error(NO_CSV_FILES))
    ensures forall f :: parse(f).Success? ==> parse(f).value.groupLabel == FileLabel(f.name)
  {
    assert MISSING_COLUMNS != NO_CSV_FILES;
    f => ParseCsvFile(f, parseInt, parseFloat)
  }

  /** `(a, b) => a.label.localeCompare(b.label)`, with `leq` standing for `localeCompare(...) <= 0`. */
  function ByLabel(leq: (string, string) -> bool): (byLabel: (FixationGroup, FixationGroup) -> bool)
    ensures TotalPreorder(leq) ==> TotalPreorder(byLabel)
  {
    var byLabel := (a: FixationGroup, b: FixationGroup) => leq(a.groupLabel, b.groupLabel);
    assert TotalPreorder(leq) ==> TotalPreorder(byLabel) by {
      if TotalPreorder(leq) {
        forall a, b ensures byLabel(a, b) || byLabel(b, a) {
          assert leq(a.groupLabel, b.groupLabel) || leq(b.groupLabel, a.groupLabel);
        }
        forall a, b, c | byLabel(a, b) && byLabel(b, c) ensures byLabel(a, c) {
          assert leq(a.groupLabel, b.groupLabel) && leq(b.groupLabel, c.groupLabel);
        }
      }
    }
    byLabel
  }

  /**
   * `handleFileUpload`: the ".csv" files are parsed; an error when there is none, the first
   * parse failure if any, otherwise the groups sorted by label.
   */
  function HandleFileUpload(files: seq<CsvFile>, parseInt: string -> Option<int>, parseFloat: string -> Option<real>,
                            leq: (string, string) -> bool)
    : (r: Result<seq<FixationGroup>, CsvError>)
    ensures r.Success? <==> UploadCsvFiles(files, FileParser(parseInt, parseFloat)).Success?
    ensures r.Failure? ==> r == UploadCsvFiles(files, FileParser(parseInt, parseFloat))
    ensures r.Success? ==>
      && |r.value| == |CsvFiles(files)|
      && multiset(r.value) == multiset(UploadCsvFiles(files, FileParser(parseInt, parseFloat)).value)
  {
    match UploadCsvFiles(files, FileParser(parseInt, parseFloat))
    case Failure(e) => Failure(e)
    case Success(groups) =>
      var sorted := Sort(groups, ByLabel(leq));
      assert |sorted| == |groups| by {
        assert |multiset(sorted)| == |multiset(groups)|;
      }
      Success(sorted)
  }

  /** The "No CSV files selected" error is thrown exactly when no name ends with ".csv". */
  lemma NoCsvFilesIff(files: seq<CsvFile>, parseInt: string -> Option<int>, parseFloat: string -> Option<real>,
                      leq: (string, string) -> bool)
    ensures HandleFileUpload(files, parseInt, parseFloat, leq) == Failure(Error(NO_CSV_FILES)) <==>
      forall f :: f in files ==> !IsCsvName(f)
  {
    CsvText.NoCsvFilesIff(files, FileParser(parseInt, parseFloat));
  }

  /** With a total preorder on labels, the uploaded groups are sorted by label. */
  lemma HandleFileUploadSorted(files: seq<CsvFile>, parseInt: string -> Option<int>,
                               parseFloat: string -> Option<real>, leq: (string, string) -> bool)
    requires TotalPreorder(leq)
    requires HandleFileUpload(files, parseInt, parseFloat, leq).Success?
    ensures var gs := HandleFileUpload(files, parseInt, parseFloat, leq).value;
      forall i, j :: 0 <= i < j < |gs| ==> leq(gs[i].groupLabel, gs[j].groupLabel)
  {
    var groups := UploadCsvFiles(files, FileParser(parseInt, parseFloat)).value;
    SortSorted(groups, ByLabel(leq));
    var gs := HandleFileUpload(files, parseInt, parseFloat, leq).value;
    assert gs == Sort(groups, ByLabel(leq));
    forall i, j | 0 <= i < j < |gs| ensures leq(gs[i].groupLabel, gs[j].groupLabel) {
      assert ByLabel(leq)(gs[i], gs[j]);
    }
  }
}
