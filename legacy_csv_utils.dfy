/**
 * `parseCSVFile` and `handleFileUpload` of src/lib/utility/csvUtils.ts: id, timestamp and aoi
 * columns are all required, an id cell that does not parse to a non-zero integer falls back
 * to the line's position, no coordinates are read, and the groups keep the files' order.
 */
module LegacyCsvUtils {
  import opened Wrappers
  import opened Text
  import opened Fixations
  import opened CsvText

  /** The message thrown when the id, the timestamp or the aoi column is missing. */
  const MISSING_COLUMNS: string := "CSV must contain columns for id, timestamp, and aoi"

  /** The column positions found in the header; -1 where no cell matches. */
  datatype Columns = Columns(id: int, timestamp: int, aoi: int)

  /** Each position is that of the first header cell containing the column's name, or -1. */
  function FindColumns(header: seq<string>): (c: Columns)
    ensures -1 <= c.id < |header| && -1 <= c.timestamp < |header| && -1 <= c.aoi < |header|
    ensures c.id == -1 <==> forall i :: 0 <= i < |header| ==> !Contains(header[i], "id")
    ensures c.timestamp == -1 <==> forall i :: 0 <= i < |header| ==> !Contains(header[i], "timestamp")
    ensures c.aoi == -1 <==> forall i :: 0 <= i < |header| ==> !Contains(header[i], "aoi")
    ensures FirstContaining(header, "id", c.id) && FirstContaining(header, "timestamp", c.timestamp)
    ensures FirstContaining(header, "aoi", c.aoi)
  {
    Columns(FindIndex(header, "id"), FindIndex(header, "timestamp"), FindIndex(header, "aoi"))
  }

  /** `parseInt(cell) || index + 1`: NaN and 0 are falsy, so both give way to the position. */
  function RowId(idCell: Option<int>, index: nat): (id: int)
    ensures id == index + 1 <==> idCell.None? || idCell.value == 0 || idCell.value == index + 1
    ensures id != 0
  {
    match idCell
    case Some(v) => if v != 0 then v else index + 1
    case None => index + 1
  }

  /**
   * One data line at position `index`, or `None` when it has no AOI cell (reading `split` of
   * `undefined` throws); the fixation never has coordinates.
   */
  function ParseRow(line: string, index: nat, columns: Columns, parseInt: string -> Option<int>)
    : (r: Option<Fixation>)
    ensures r.None? <==> Cell(Split(line, ','), columns.aoi).None?
    ensures r.Some? ==>
      && r.value.id == RowId(ParseCell(Cell(Split(line, ','), columns.id), parseInt), index)
      && r.value.aoi == ParseAois(Split(line, ',')[columns.aoi])
      && r.value.timestamp == ParseCell(Cell(Split(line, ','), columns.timestamp), parseInt)
      && r.value.x.None? && r.value.y.None?
  {
    var cells := Split(line, ',');
    match Cell(cells, columns.aoi)
    case None => None
    case Some(aoiCell) =>
      Some(Fixation(RowId(ParseCell(Cell(cells, columns.id), parseInt), index),
                    ParseCell(Cell(cells, columns.timestamp), parseInt),
                    ParseAois(aoiCell), None, None))
  }

  /**
   * The callback `map` applies to every data line: a line fails exactly when it has no AOI
   * cell, and a parsed line's id is never 0.
   */
  function RowParser(columns: Columns, parseInt: string -> Option<int>)
    : (parse: (string, nat) -> Option<Fixation>)
    ensures forall line, index: nat :: parse(line, index).None? <==> !(0 <= columns.aoi < |Split(line, ',')|)
    ensures forall line, index: nat :: parse(line, index).Some? ==> parse(line, index).value.id != 0
  {
    (line: string, index: nat) => ParseRow(line, index, columns, parseInt)
  }

  /** Some header cell lacks a required column's name. */
  predicate MissingColumn(columns: Columns) {
    columns.id == -1 || columns.timestamp == -1 || columns.aoi == -1
  }

  /** The columns are incomplete exactly when one of "id", "timestamp", "aoi" is in no header cell. */
  lemma MissingColumnIff(header: seq<string>)
    ensures MissingColumn(FindColumns(header)) <==>
      || (forall i :: 0 <= i < |header| ==> !Contains(header[i], "id"))
      || (forall i :: 0 <= i < |header| ==> !Contains(header[i], "timestamp"))
      || (forall i :: 0 <= i < |header| ==> !Contains(header[i], "aoi"))
  {
  }

  /**
   * `parseCSVFile` from the non-blank lines on: no line throws reading the header, a missing
   * id, timestamp or aoi column throws its message, a data line without an AOI cell throws,
   * and otherwise the group holds one fixation per data line under the file's label.
   */
  function ParseLines(name: string, lines: seq<string>, parseInt: string -> Option<int>)
    : (r: Result<FixationGroup, CsvError>)
    ensures r == Failure(NoHeaderLine) <==> lines == []
    ensures r == Failure(Error(MISSING_COLUMNS)) <==> lines != [] && MissingColumn(FindColumns(Header(lines[0])))
    ensures r.Failure? ==>
      r.error == NoHeaderLine || r.error == Error(MISSING_COLUMNS) || r.error.MissingAoiCell?
    ensures r.Success? ==> r.value.groupLabel == FileLabel(name) && |r.value.fixations| == |lines| - 1
  {
    if lines == [] then Failure(NoHeaderLine)
    else
      var columns := FindColumns(Header(lines[0]));
      if MissingColumn(columns) then Failure(Error(MISSING_COLUMNS))
      else
        match ParseRows(lines[1..], 0, RowParser(columns, parseInt))
        case Failure(e) => Failure(e)
        case Success(fixations) => Success(FixationGroup(FileLabel(name), fixations))
  }

  /** `parseCSVFile` after `file.text()`: the header read fails exactly when every line is blank. */
  function ParseCsvFile(file: CsvFile, parseInt: string -> Option<int>): (r: Result<FixationGroup, CsvError>)
    ensures r == Failure(NoHeaderLine) <==> forall line :: line in Split(file.text, '\n') ==> IsBlank(line)
  {
    NoHeaderIffBlank(file.text);
    ParseLines(file.name, NonBlankLines(file.text), parseInt)
  }

  /**
   * On success, fixation k comes from data line k: its id is the parsed id cell unless that is
   * missing, NaN or 0, in which case it is k + 1; it has no coordinates.
   */
  lemma ParseLinesRows(name: string, lines: seq<string>, parseInt: string -> Option<int>, k: nat)
    requires ParseLines(name, lines, parseInt).Success?
    requires k < |ParseLines(name, lines, parseInt).value.fixations|
    ensures var columns := FindColumns(Header(lines[0]));
      var f := ParseLines(name, lines, parseInt).value.fixations[k];
      var idCell := ParseCell(Cell(Split(lines[k + 1], ','), columns.id), parseInt);
      && ParseRow(lines[k + 1], k, columns, parseInt) == Some(f)
      && (idCell.Some? && idCell.value != 0 ==> f.id == idCell.value)
      && (idCell.None? || idCell.value == 0 ==> f.id == k + 1)
      && f.aoi == ParseAois(Split(lines[k + 1], ',')[columns.aoi])
      && f.x.None? && f.y.None?
  {
    var columns := FindColumns(Header(lines[0]));
    var fs := ParseLines(name, lines, parseInt).value.fixations;
    assert ParseRows(lines[1..], 0, RowParser(columns, parseInt)) == Success(fs);
    assert lines[1..][k] == lines[k + 1];
  }

  /** The first data line with too few cells for the AOI column makes the file fail with its position. */
  lemma MissingAoiCellFails(name: string, lines: seq<string>, parseInt: string -> Option<int>, k: nat)
    requires lines != [] && !MissingColumn(FindColumns(Header(lines[0])))
    requires k + 1 < |lines|
    requires |Split(lines[k + 1], ',')| <= FindColumns(Header(lines[0])).aoi
    requires forall j :: 0 < j <= k ==> |Split(lines[j], ',')| > FindColumns(Header(lines[0])).aoi
    ensures ParseLines(name, lines, parseInt) == Failure(MissingAoiCell(k))
  {
    var data := lines[1..];
    assert forall j :: 0 <= j <= k ==> data[j] == lines[j + 1];
    RowsFailAt(data, FindColumns(Header(lines[0])), parseInt, k);
  }

  /**
   * Which files parse: exactly those with a header line naming the id, timestamp and aoi
   * columns whose every data line has a cell at the AOI column's position.
   */
  lemma ParseLinesSuccessIff(name: string, lines: seq<string>, parseInt: string -> Option<int>)
    ensures ParseLines(name, lines, parseInt).Success? <==>
      && lines != []
      && !MissingColumn(FindColumns(Header(lines[0])))
      && forall j :: 0 < j < |lines| ==> |Split(lines[j], ',')| > FindColumns(Header(lines[0])).aoi
  {
    if lines != [] {
      var columns := FindColumns(Header(lines[0]));
      if !MissingColumn(columns) {
        var data := lines[1..];
        RowsSucceedIff(data, columns, parseInt);
        assert forall j :: 0 < j < |lines| ==> lines[j] == data[j - 1];
      }
    }
  }

  /** Over the data lines alone: every row parses exactly when every line reaches the AOI column. */
  lemma RowsSucceedIff(data: seq<string>, columns: Columns, parseInt: string -> Option<int>)
    requires columns.aoi >= 0
    ensures ParseRows(data, 0, RowParser(columns, parseInt)).Success? <==>
      forall j :: 0 <= j < |data| ==> |Split(data[j], ',')| > columns.aoi
  {
    forall j | 0 <= j < |data|
      ensures RowParser(columns, parseInt)(data[j], 0 + j).Some? <==> |Split(data[j], ',')| > columns.aoi
    {
      ShortRowFails(data[j], j, columns, parseInt);
    }
  }

  /** Over the data lines alone: the first line too short for the AOI column is the one named. */
  lemma RowsFailAt(data: seq<string>, columns: Columns, parseInt: string -> Option<int>, k: nat)
    requires columns.aoi >= 0 && k < |data|
    requires |Split(data[k], ',')| <= columns.aoi
    requires forall j :: 0 <= j < k ==> |Split(data[j], ',')| > columns.aoi
    ensures ParseRows(data, 0, RowParser(columns, parseInt)) == Failure(MissingAoiCell(k))
  {
    var parse := RowParser(columns, parseInt);
    forall j | 0 <= j < k ensures parse(data[j], 0 + j).Some? {
      ShortRowFails(data[j], j, columns, parseInt);
    }
    ShortRowFails(data[k], k, columns, parseInt);
    ParseRowsFirstFailure(data, 0, parse, k);
  }

  /** A data line fails exactly when it has no more cells than the AOI column's position. */
  lemma ShortRowFails(line: string, index: nat, columns: Columns, parseInt: string -> Option<int>)
    requires columns.aoi >= 0
    ensures ParseRow(line, index, columns, parseInt).None? <==> |Split(line, ',')| <= columns.aoi
  {
  }

  /** The callback `Promise.all` waits for on every ".csv" file. */
  function FileParser(parseInt: string -> Option<int>): (parse: CsvFile -> Result<FixationGroup, CsvError>)
    ensures forall f :: parse(f) != Failure(Error(NO_CSV_FILES))
    ensures forall f :: parse(f).Success? ==> parse(f).value.groupLabel == FileLabel(f.name)
  {
    assert MISSING_COLUMNS != NO_CSV_FILES;
    f => ParseCsvFile(f, parseInt)
  }

  /**
   * `handleFileUpload`: an error when no name ends with ".csv", the first parse failure if
   * any, otherwise the groups of the ".csv" files in the order the files were given.
   */
  function HandleFileUpload(files: seq<CsvFile>, parseInt: string -> Option<int>)
    : (r: Result<seq<FixationGroup>, CsvError>)
    ensures r.Success? ==> |r.value| == |CsvFiles(files)|
    ensures r.Failure? ==> r.error == Error(NO_CSV_FILES) || exists f :: f in CsvFiles(files) && ParseCsvFile(f, parseInt) == Failure(r.error)
  {
    var r := UploadCsvFiles(files, FileParser(parseInt));
    if CsvFiles(files) != [] && r.Failure? then
      var f :| f in CsvFiles(files) && FileParser(parseInt)(f) == Failure(r.error);
      assert ParseCsvFile(f, parseInt) == Failure(r.error);
      r
    else
      r
  }

  /** The "No CSV files selected" error is thrown exactly when no name ends with ".csv". */
  lemma NoCsvFilesIff(files: seq<CsvFile>, parseInt: string -> Option<int>)
    ensures HandleFileUpload(files, parseInt) == Failure(Error(NO_CSV_FILES)) <==>
      forall f :: f in files ==> !IsCsvName(f)
  {
    CsvText.NoCsvFilesIff(files, FileParser(parseInt));
  }

  /**
   * Unlike the sorted variant, group k comes from the k-th ".csv" file in the order given,
   * and carries that file's label.
   */
  lemma GroupsInFileOrder(files: seq<CsvFile>, parseInt: string -> Option<int>, k: nat)
    requires HandleFileUpload(files, parseInt).Success?
    requires k < |HandleFileUpload(files, parseInt).value|
    ensures var gs := HandleFileUpload(files, parseInt).value;
      && ParseCsvFile(CsvFiles(files)[k], parseInt) == Success(gs[k])
      && gs[k].groupLabel == FileLabel(CsvFiles(files)[k].name)
  {
    var gs := HandleFileUpload(files, parseInt).value;
    assert FileParser(parseInt)(CsvFiles(files)[k]) == Success(gs[k]);
  }
}
