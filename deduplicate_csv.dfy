/** The command-line deduplicator (deduplicate_csv.py): which files it works on, the
    deduplication itself (the pandas pipeline) and the exit status. */
module DeduplicateCsv {
  import opened Wrappers
  import opened Text
  import opened Annotations

  /** `deduplicate_annotations`: a missing input fails before anything is read; otherwise the
      schema check and the pandas pipeline decide. `byTs` is the order pandas' timestamp sort
      returns. */
  function DeduplicateAnnotations(inputExists: bool, sheet: Sheet, inputFile: string,
                                  outputFile: Option<string>, stamp: string, byTs: seq<Row>)
    : (r: Result<Report, DedupError>)
    requires TsOrder(sheet.rows, byTs)
    ensures r.Success? <==> inputExists && Missing(sheet.columns) == []
    ensures !inputExists ==> r == Failure(InputMissing)
    ensures inputExists ==> r == PandasDeduplicate(sheet, inputFile, outputFile, stamp, byTs)
    ensures inputExists && r.Failure? ==> r.error == MissingColumns(Missing(sheet.columns))
    ensures r.Success? ==>
              && LatestPerPath(sheet.rows, r.value.rows)
              && r.value.originalCount == |sheet.rows|
              && r.value.deduplicatedCount == |r.value.rows| == |PathsOf(sheet.rows)|
              && r.value.removedCount == |sheet.rows| - |PathsOf(sheet.rows)|
              && r.value.distribution == Tally(r.value.rows)
              && (forall q :: Lookup(r.value.distribution, q) == CountQuality(r.value.rows, q))
              && Total(r.value.distribution) == |PathsOf(sheet.rows)|
              && r.value.outputFile == (if outputFile.Some? then outputFile.value
                                        else DefaultOutputName(inputFile, stamp))
  {
    if !inputExists then Failure(InputMissing)
    else PandasDeduplicate(sheet, inputFile, outputFile, stamp, byTs)
  }

  const DefaultInput := "annotations.csv"

  /** The files one run works on. */
  datatype Invocation = Invocation(inputFile: string, outputFile: Option<string>)

  /** `main`'s choice of files: the first two command-line arguments when there are any,
      otherwise the two answers typed at the prompts, stripped, a blank input answer meaning
      `annotations.csv` and a blank output answer meaning a generated name. */
  function ChooseFiles(args: seq<string>, inputAnswer: string, outputAnswer: string): (inv: Invocation)
    ensures args != [] ==> inv.inputFile == args[0]
    ensures args != [] ==> (inv.outputFile.Some? <==> |args| > 1)
    ensures |args| > 1 ==> inv.outputFile == Some(args[1])
    ensures args == [] && IsBlank(inputAnswer) ==> inv.inputFile == DefaultInput
    ensures args == [] && !IsBlank(inputAnswer) ==> inv.inputFile == PyStrip(inputAnswer)
    ensures args == [] ==>
              && (inv.inputFile == DefaultInput <==> PyStrip(inputAnswer) == [] || PyStrip(inputAnswer) == DefaultInput)
              && inv.inputFile != []
              && (inv.outputFile.None? <==> IsBlank(outputAnswer))
              && (inv.outputFile.Some? ==> inv.outputFile.value == PyStrip(outputAnswer))
  {
    if args != [] then Invocation(args[0], if |args| > 1 then Some(args[1]) else None)
    else
      var input := PyStrip(inputAnswer);
      var output := PyStrip(outputAnswer);
      StripEmptyIffBlank(inputAnswer, IsPySpace);
      StripEmptyIffBlank(outputAnswer, IsPySpace);
      Invocation(if input == [] then DefaultInput else input, if output == [] then None else Some(output))
  }

  /** The exit status of one run: 0 after a successful deduplication, 1 otherwise. */
  function ExitStatus(args: seq<string>, inputAnswer: string, outputAnswer: string,
                      existing: set<string>, sheet: Sheet, stamp: string, byTs: seq<Row>): (status: int)
    requires TsOrder(sheet.rows, byTs)
    ensures status == 0 || status == 1
    ensures var inv := ChooseFiles(args, inputAnswer, outputAnswer);
      status == 0 <==> inv.inputFile in existing && Missing(sheet.columns) == []
  {
    var inv := ChooseFiles(args, inputAnswer, outputAnswer);
    var r := DeduplicateAnnotations(inv.inputFile in existing, sheet, inv.inputFile, inv.outputFile, stamp, byTs);
    if r.Success? then 0 else 1
  }
}
