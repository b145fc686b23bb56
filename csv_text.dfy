/**
 * The text handling both copies of `parseCSVFile` and `handleFileUpload` share: blank-line
 * removal, the lower-cased header, cell access where a missing cell is `undefined`, the AOI
 * cell split on ';', the group label taken from the file name, and the "first failure wins"
 * combination of per-row and per-file results.
 */
module CsvText {
  import opened Wrappers
  import opened Text
  import opened Sequences
  import opened Fixations

  /** A selected file: its name and its whole text (what `file.text()` resolves to). */
  datatype CsvFile = CsvFile(name: string, text: string)

  /**
   * What a call can throw: an `Error` with its message, or the `TypeError` raised by reading
   * a property of `undefined` (no header line, or a data line without an AOI cell).
   */
  datatype CsvError =
    | Error(message: string)
    | NoHeaderLine
    | MissingAoiCell(row: nat)

  /** The message `handleFileUpload` throws when no name ends with ".csv". */
  const NO_CSV_FILES: string := "No CSV files selected"

  /** `line.trim().length > 0`. */
  predicate HasContent(line: string) {
    |Trim(line)| > 0
  }

  /** `text.split('\n').filter(line => line.trim().length > 0)`. */
  function NonBlankLines(text: string): (r: seq<string>)
    ensures |r| <= |Split(text, '\n')|
  {
    Filter(Split(text, '\n'), HasContent)
  }

  /**
   * A line is kept exactly when it is not whitespace only, and then as often as the text
   * has it.
   */
  lemma NonBlankLinesSpec(text: string)
    ensures forall line :: line in NonBlankLines(text) <==> line in Split(text, '\n') && !IsBlank(line)
    ensures forall line :: multiset(NonBlankLines(text))[line]
                           == if IsBlank(line) then 0 else multiset(Split(text, '\n'))[line]
  {
    forall line ensures HasContent(line) <==> !IsBlank(line) {
      TrimEmptyIffBlank(line);
    }
    forall line ensures multiset(NonBlankLines(text))[line]
                        == if IsBlank(line) then 0 else multiset(Split(text, '\n'))[line] {
      FilterCount(Split(text, '\n'), HasContent, line);
    }
  }

  /**
   * The kept lines keep their order: when line `j` is the first that is not whitespace only,
   * it is the header, and the data lines are the non-blank lines after it.
   */
  lemma NonBlankLinesFirst(text: string, j: nat)
    requires j < |Split(text, '\n')| && !IsBlank(Split(text, '\n')[j])
    requires forall i :: 0 <= i < j ==> IsBlank(Split(text, '\n')[i])
    ensures NonBlankLines(text)
            == [Split(text, '\n')[j]] + Filter(Split(text, '\n')[j + 1..], HasContent)
  {
    var lines := Split(text, '\n');
    forall i | 0 <= i <= j ensures HasContent(lines[i]) <==> !IsBlank(lines[i]) {
      TrimEmptyIffBlank(lines[i]);
    }
    FilterFirst(lines, HasContent, j);
  }

  /** There is no header line exactly when every line of the text is whitespace only. */
  lemma NoHeaderIffBlank(text: string)
    ensures NonBlankLines(text) == [] <==> forall line :: line in Split(text, '\n') ==> IsBlank(line)
  {
    NonBlankLinesSpec(text);
    if NonBlankLines(text) != [] {
      assert NonBlankLines(text)[0] in NonBlankLines(text);
    }
  }

  /**
   * `line.toLowerCase().split(',')`: cells free of ',' that join back into the lower-cased
   * line, so (by `SplitJoin`) exactly its ','-pieces.
   */
  function Header(line: string): (cells: seq<string>)
    ensures |cells| >= 1
    ensures forall k :: 0 <= k < |cells| ==> ',' !in cells[k]
    ensures Join(cells, ',') == Lower(line)
  {
    JoinSplit(Lower(line), ',');
    Split(Lower(line), ',')
  }

  /** `columns[index]`, which is `undefined` for -1 and for positions past the end. */
  function Cell(columns: seq<string>, index: int): (c: Option<string>)
    ensures c.Some? <==> 0 <= index < |columns|
    ensures c.Some? ==> c.value == columns[index]
  {
    if 0 <= index < |columns| then Some(columns[index]) else None
  }

  /**
   * `parseInt(cell)` or `parseFloat(cell)`, where the parser gives NaN (`None`) for
   * `undefined`.
   */
  function ParseCell<T>(cell: Option<string>, parse: string -> Option<T>): (n: Option<T>)
    ensures cell.None? ==> n.None?
    ensures cell.Some? ==> n == parse(cell.value)
  {
    match cell
    case None => None
    case Some(s) => parse(s)
  }

  /** `cell.split(';').map(aoi => aoi.trim())`: one trimmed label per ';'-piece of the cell. */
  function ParseAois(cell: string): (aois: seq<string>)
    ensures |aois| >= 1
    ensures forall k :: 0 <= k < |aois| ==> ';' !in aois[k] && aois[k] == Trim(aois[k])
    ensures |aois| == |Split(cell, ';')|
    ensures forall k :: 0 <= k < |aois| ==> aois[k] == Trim(Split(cell, ';')[k])
  {
    var parts := Split(cell, ';');
    var aois := TrimAll(parts);
    forall k | 0 <= k < |aois| ensures ';' !in aois[k] && aois[k] == Trim(aois[k]) {
      TrimDropsNothingElse(parts[k], ';');
      TrimIdempotent(parts[k]);
    }
    aois
  }

  /** `file.name.replace('.csv', '')`: the first ".csv" removed. */
  function FileLabel(name: string): (result: string)
    ensures !Contains(name, ".csv") ==> result == name
    ensures Contains(name, ".csv") ==> exists k ::
              && OccursAt(name, ".csv", k)
              && (forall i :: 0 <= i < k ==> !OccursAt(name, ".csv", i))
              && result == name[..k] + name[k + 4..]
  {
    RemoveFirst(name, ".csv")
  }

  /** `file.name.endsWith('.csv')`: the name is some base followed by ".csv". */
  function IsCsvName(f: CsvFile): (r: bool)
    ensures r <==> exists base :: f.name == base + ".csv"
  {
    EndsWith(f.name, ".csv")
  }

  /**
   * The data lines mapped by `parse`, which also receives each line's position (`from` for
   * the first line) and gives `None` when the line has no AOI cell; the first such line
   * throws, naming its position.
   */
  function ParseRows(lines: seq<string>, from: nat, parse: (string, nat) -> Option<Fixation>)
    : (r: Result<seq<Fixation>, CsvError>)
    ensures r.Success? <==> forall k :: 0 <= k < |lines| ==> parse(lines[k], from + k).Some?
    ensures r.Success? ==>
      && |r.value| == |lines|
      && forall k :: 0 <= k < |lines| ==> parse(lines[k], from + k) == Some(r.value[k])
    ensures r.Failure? ==> r.error.MissingAoiCell? && from <= r.error.row < from + |lines|
  {
    if lines == [] then Success([])
    else
      match parse(lines[0], from)
      case None => Failure(MissingAoiCell(from))
      case Some(f) =>
        var rest := ParseRows(lines[1..], from + 1, parse);
        assert forall k :: 0 < k < |lines| ==> lines[1..][k - 1] == lines[k] && from + 1 + (k - 1) == from + k;
        match rest
        case Failure(e) => Failure(e)
        case Success(fs) => Success([f] + fs)
  }

  /** A failure names the first line without an AOI cell. */
  lemma {:induction false} ParseRowsFirstFailure(lines: seq<string>, from: nat,
                                                 parse: (string, nat) -> Option<Fixation>, k: nat)
    requires k < |lines| && parse(lines[k], from + k).None?
    requires forall j :: 0 <= j < k ==> parse(lines[j], from + j).Some?
    ensures ParseRows(lines, from, parse) == Failure(MissingAoiCell(from + k))
  {
    if k > 0 {
      assert parse(lines[0], from).Some?;
      forall j | 0 <= j < k - 1 ensures parse(lines[1..][j], from + 1 + j).Some? {
        assert parse(lines[j + 1], from + (j + 1)).Some?;
      }
      ParseRowsFirstFailure(lines[1..], from + 1, parse, k - 1);
    }
  }

  /** `Promise.all(files.map(parse))`: every group in file order, or the first failure. */
  function ParseAll(files: seq<CsvFile>, parse: CsvFile -> Result<FixationGroup, CsvError>)
    : (r: Result<seq<FixationGroup>, CsvError>)
    ensures r.Success? <==> forall k :: 0 <= k < |files| ==> parse(files[k]).Success?
    ensures r.Success? ==>
      && |r.value| == |files|
      && forall k :: 0 <= k < |files| ==> parse(files[k]) == Success(r.value[k])
    ensures r.Failure? ==> exists k :: 0 <= k < |files| && parse(files[k]) == Failure(r.error)
  {
    if files == [] then Success([])
    else
      match parse(files[0])
      case Failure(e) => Failure(e)
      case Success(g) =>
        var rest := ParseAll(files[1..], parse);
        assert forall k :: 0 < k < |files| ==> files[1..][k - 1] == files[k];
        match rest
        case Failure(e) => Failure(e)
        case Success(gs) => Success([g] + gs)
  }

  /** The files whose names end with ".csv", in their original order. */
  function CsvFiles(files: seq<CsvFile>): (r: seq<CsvFile>)
    ensures forall f :: f in r <==> f in files && IsCsvName(f)
  {
    Filter(files, IsCsvName)
  }

  /**
   * The shared part of `handleFileUpload`: an error when no name ends with ".csv", otherwise
   * `Promise.all` over the ".csv" files in their original order.
   */
  function UploadCsvFiles(files: seq<CsvFile>, parse: CsvFile -> Result<FixationGroup, CsvError>)
    : (r: Result<seq<FixationGroup>, CsvError>)
    ensures CsvFiles(files) == [] <==> forall f :: f in files ==> !IsCsvName(f)
    ensures CsvFiles(files) == [] ==> r == Failure(Error(NO_CSV_FILES))
    ensures CsvFiles(files) != [] ==>
      && (r.Success? <==> forall f :: f in CsvFiles(files) ==> parse(f).Success?)
      && (r.Failure? ==> exists f :: f in CsvFiles(files) && parse(f) == Failure(r.error))
    ensures r.Success? ==>
      && |r.value| == |CsvFiles(files)|
      && forall k :: 0 <= k < |r.value| ==> parse(CsvFiles(files)[k]) == Success(r.value[k])
  {
    var csvFiles := CsvFiles(files);
    if csvFiles == [] then
      Failure(Error(NO_CSV_FILES))
    else
      assert csvFiles[0] in csvFiles;
      ParseAll(csvFiles, parse)
  }

  /**
   * When no file parse can itself produce "No CSV files selected", that error comes back
   * exactly when no name ends with ".csv".
   */
  lemma NoCsvFilesIff(files: seq<CsvFile>, parse: CsvFile -> Result<FixationGroup, CsvError>)
    requires forall f :: parse(f) != Failure(Error(NO_CSV_FILES))
    ensures UploadCsvFiles(files, parse) == Failure(Error(NO_CSV_FILES)) <==>
      forall f :: f in files ==> !IsCsvName(f)
  {
    var r := UploadCsvFiles(files, parse);
    if CsvFiles(files) != [] && r.Failure? {
      var f :| f in CsvFiles(files) && parse(f) == Failure(r.error);
    }
  }
}
