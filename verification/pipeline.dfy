/** The script's main loop: every log file is read into columns, turned
    into rows, named, and folded into the results table; the first error
    stops the whole run, so no table is printed. */
module Pipeline {
  import opened Wrappers
  import opened Seqs
  import opened Extractor
  import opened Frame
  import opened Naming
  import opened Aggregate
  import opened Render

  /** A log file: its path as given or found, and its lines as read. */
  datatype LogFile = LogFile(path: string, lines: seq<string>)

  /** What stops the run, with the file it happened in. */
  datatype Error =
    | ParseFailed(path: string, parse: ParseError)
    | FrameFailed(path: string, frame: FrameError)
    | NameFailed(path: string, name: NameError)

  /** One file's contribution: the model it is filed under and its rows. */
  datatype Loaded = Loaded(model: string, rows: seq<Row>)

  /** The rows of a file's extracted columns. */
  function RowsOf(c: Columns, num: Reader): Result<seq<Row>, FrameError>
    requires c.Keys == KeySet
  {
    FrameColumnsExtracted(c);
    ToRows(c, num)
  }

  /** The file's records are well formed and the frame built from them
      converts: every column has one text per record and every numeric
      text reads as a number. */
  predicate Converts(f: LogFile, num: Reader) {
    && RecordsWellFormed(f.lines)
    && var c := ExtractLines(f.lines).value;
      FrameColumnsExtracted(c);
      Convertible(c, num)
  }

  /** `rows` are the rows of the file's frame: one per record, row `i`
      made of cell `i` of each column. */
  predicate RowsFrom(f: LogFile, num: Reader, rows: seq<Row>)
    requires RecordsWellFormed(f.lines)
  {
    var c := ExtractLines(f.lines).value;
    FrameColumnsExtracted(c);
    FrameKeyNames(c);
    && |rows| == |c[IdKey]|
    && forall i :: 0 <= i < |rows| ==> RowFrom(rows[i], c, num, i)
  }

  /** Reading one file, in the script's order: extract the records, build
      and convert the frame, then derive the model name. */
  function Load(f: LogFile, num: Reader): (r: Result<Loaded, Error>)
    ensures r.Success? ==> RecordsWellFormed(f.lines) && ModelName(f.path) == Success(r.value.model)
    ensures r.Success? ==> RowsFrom(f, num, r.value.rows)
    ensures !RecordsWellFormed(f.lines) ==> r.Failure? && r.error.ParseFailed?
    ensures RecordsWellFormed(f.lines) && !Converts(f, num) ==> r.Failure? && r.error.FrameFailed?
    ensures RecordsWellFormed(f.lines) && ModelName(f.path).Failure? ==> r.Failure?
    ensures r.Failure? ==> r.error.path == f.path
  {
    match ExtractLines(f.lines)
    case Failure(e) => Failure(ParseFailed(f.path, e))
    case Success(c) =>
      match RowsOf(c, num)
      case Failure(e) => Failure(FrameFailed(f.path, e))
      case Success(rows) =>
        match ModelName(f.path)
        case Failure(e) => Failure(NameFailed(f.path, e))
        case Success(m) => Success(Loaded(m, rows))
  }

  /** A file loads exactly when its records are well formed, their frame
      converts, and its path yields a model name. */
  lemma LoadSucceeds(f: LogFile, num: Reader)
    ensures Load(f, num).Success? <==> Converts(f, num) && ModelName(f.path).Success?
  {
    if RecordsWellFormed(f.lines) {
      FrameColumnsExtracted(ExtractLines(f.lines).value);
    }
  }

  /** A loaded file has one row per record, when every record carries each
      of the twelve keys once. */
  lemma LoadRowCount(f: LogFile, num: Reader)
    requires Load(f, num).Success?
    requires forall i :: 0 <= i < |f.lines| && Accepted(f.lines[i]) ==> OneOfEach(f.lines[i])
    ensures |Load(f, num).value.rows| == NumAccepted(f.lines)
  {
    RecordsWellFormedIff(f.lines);
    var c := ExtractLines(f.lines).value;
    ExtractedColumns(f.lines);
    ExpectedLength(f.lines, IdKey);
    FrameColumnsExtracted(c);
  }

  /** The file loads. */
  predicate Loads(num: Reader, f: LogFile) {
    Load(f, num).Success?
  }

  /** All files in order; the table starts empty. */
  function Run(files: seq<LogFile>, num: Reader): (r: Result<Results, Error>)
    ensures r.Success? <==> Every(files, f => Loads(num, f))
    decreases |files|
  {
    if files == [] then Success(map[])
    else
      var t :- Run(files[..|files| - 1], num);
      var x :- Load(files[|files| - 1], num);
      Success(Ingest(t, x.model, x.rows))
  }

  /** A successful run is the run over all files but the last, with the
      last file ingested into its table. */
  lemma RunLast(files: seq<LogFile>, num: Reader)
    requires files != [] && Run(files, num).Success?
    ensures var init := files[..|files| - 1];
      var x := Load(files[|files| - 1], num);
      && Run(init, num).Success? && x.Success?
      && Run(files, num).value == Ingest(Run(init, num).value, x.value.model, x.value.rows)
  {
  }

  /** The last file of a successful run is named after some model, and the
      run's table is the table of the other files with that model's entry
      set. */
  lemma RunStep(files: seq<LogFile>, num: Reader) returns (model: string)
    requires files != [] && Run(files, num).Success?
    ensures var init := files[..|files| - 1];
      && Run(init, num).Success?
      && NamedAfter(model, files[|files| - 1])
      && var r := Run(files, num).value;
        r == Run(init, num).value[model := r[model]]
  {
    RunLast(files, num);
    model := Load(files[|files| - 1], num).value.model;
  }

  /** File `f` is named after model `m`. */
  predicate NamedAfter(m: string, f: LogFile) {
    ModelName(f.path) == Success(m)
  }

  /** Some file of `files` is named after model `m`. */
  ghost predicate NamedIn(files: seq<LogFile>, m: string) {
    Any(files, f => NamedAfter(m, f))
  }

  /** After a successful run the table has an entry for exactly the model
      names of the files. */
  lemma {:induction false} RunModels(files: seq<LogFile>, num: Reader)
    requires Run(files, num).Success?
    ensures forall m :: m in Run(files, num).value <==> NamedIn(files, m)
    decreases |files|
  {
    if files != [] {
      var init := files[..|files| - 1];
      var model := RunStep(files, num);
      RunModels(init, num);
      var r := Run(files, num).value;
      forall m
        ensures m in r <==> NamedIn(files, m)
      {
        AnyLast(files, f => NamedAfter(m, f));
      }
    }
  }

  /** The whole script: both tables of the final results. */
  function Process(files: seq<LogFile>, num: Reader): (r: Result<Report, Error>)
    ensures r.Success? <==> Every(files, f => Loads(num, f))
    ensures r.Success? ==> r.value == MakeReport(Run(files, num).value)
  {
    var t :- Run(files, num);
    Success(MakeReport(t))
  }

  /** One bad file anywhere stops the run. */
  lemma OneBadFileStopsRun(files: seq<LogFile>, num: Reader, i: nat)
    requires i < |files| && !Loads(num, files[i])
    ensures Run(files, num).Failure?
  {
    EveryIff(files, f => Loads(num, f));
  }
}
