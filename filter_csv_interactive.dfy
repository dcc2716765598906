/** The interactive filter (filter_csv_interactive.py): the decisions its `main` takes on the
    answers typed at its prompts, ahead of the same timestamp filter the command-line tool
    runs. The prompting itself, and reading the table, are outside the model. */
module FilterCsvInteractive {
  import opened Wrappers
  import opened Text
  import opened Sequences
  import opened Calendar
  import opened FilterByTimestamp

  const DefaultColumn := "timestamp"

  /** The timestamp column: the stripped answer, or `timestamp` when the answer is blank. */
  function ChosenColumn(answer: string): (column: string)
    ensures column != []
    ensures IsBlank(answer) ==> column == DefaultColumn
    ensures !IsBlank(answer) ==> column == PyStrip(answer)
  {
    StripEmptyIffBlank(answer, IsPySpace);
    var given := PyStrip(answer);
    if given == [] then DefaultColumn else given
  }

  /** The cutoff prompt is asked again until the stripped answer parses: the index of the
      accepted answer and its value, or None while no answer so far parses. */
  function AcceptedCutoff(answers: seq<string>): (r: Option<(nat, DateTime)>)
    ensures r.Some? ==> r.value.0 < |answers|
                        && ParseTimestamp(PyStrip(answers[r.value.0])) == Success(r.value.1)
                        && Valid(r.value.1)
    ensures r.Some? ==> forall j :: 0 <= j < r.value.0 ==> ParseTimestamp(PyStrip(answers[j])).Failure?
    ensures r.None? <==> forall j :: 0 <= j < |answers| ==> ParseTimestamp(PyStrip(answers[j])).Failure?
  {
    FirstSome(answers, (a: string) =>
      var p := ParseTimestamp(PyStrip(a)); if p.Success? then Some(p.value) else None)
  }

  const CsvSuffix := ".csv"
  const FilteredSuffix := "_filtered.csv"

  /** The default output file: the input path with every ".csv" replaced by "_filtered.csv". */
  function DefaultOutput(inputFile: string): string {
    ReplaceAll(inputFile, CsvSuffix, FilteredSuffix)
  }

  /** The default output differs from the input exactly when the input path contains ".csv";
      an input path without it would be overwritten by the filtered table. */
  lemma DefaultOutputDiffers(inputFile: string)
    ensures DefaultOutput(inputFile) == inputFile <==> forall i :: !OccursAt(inputFile, CsvSuffix, i)
  {
    ReplaceAllLength(inputFile, CsvSuffix, FilteredSuffix);
  }

  /** A path whose only ".csv" is its ending gets "_filtered.csv" in place of that ending. */
  lemma {:induction false} DefaultOutputOfCsv(stem: string)
    requires forall i :: !OccursAt(stem, CsvSuffix, i)
    ensures DefaultOutput(stem + CsvSuffix) == stem + FilteredSuffix
    decreases |stem|
  {
    var s := stem + CsvSuffix;
    if stem == [] {
      assert s[..4] == CsvSuffix;
      assert s[4..] == [];
      assert ReplaceAll([], CsvSuffix, FilteredSuffix) == [];
      assert FilteredSuffix + [] == FilteredSuffix;
    } else {
      if |stem| >= 4 {
        assert !OccursAt(stem, CsvSuffix, 0);
        assert s[..4] == stem[..4];
      } else {
        assert s[..4][|stem|] == '.';
        assert CsvSuffix[|stem|] != '.';
      }
      assert s[..4] != CsvSuffix;
      forall i ensures !OccursAt(stem[1..], CsvSuffix, i) {
        if OccursAt(stem[1..], CsvSuffix, i) {
          assert stem[i + 1..i + 5] == stem[1..][i..i + 4];
          assert OccursAt(stem, CsvSuffix, i + 1);
        }
      }
      DefaultOutputOfCsv(stem[1..]);
      assert s[1..] == stem[1..] + CsvSuffix;
    }
  }

  /** The output file: the stripped answer, or the default when the answer is blank. */
  function ChosenOutput(answer: string, inputFile: string): (output: string)
    ensures IsBlank(answer) ==> output == DefaultOutput(inputFile)
    ensures !IsBlank(answer) ==> output == PyStrip(answer)
  {
    StripEmptyIffBlank(answer, IsPySpace);
    var given := PyStrip(answer);
    if given == [] then DefaultOutput(inputFile) else given
  }

  /** The spellings of "y" and "yes" in any letter case. */
  predicate IsYesSpelling(t: string) {
    || (|t| == 1 && t[0] in "yY")
    || (|t| == 3 && t[0] in "yY" && t[1] in "eE" && t[2] in "sS")
  }

  /** The confirmation: the stripped, lower-cased answer is "y" or "yes". */
  predicate Confirmed(answer: string) {
    Lower(PyStrip(answer)) in ["y", "yes"]
  }

  lemma LowerToLetter(c: char, l: char)
    requires 'a' <= l <= 'z' && l != 'k'
    ensures LowerChar(c) == l <==> c == l || c as int == l as int - 32
  {
  }

  /** Confirming takes "y" or "yes" in any letter case (blanks around it aside); anything
      else, the blank default included, cancels. */
  lemma ConfirmedIff(answer: string)
    ensures Confirmed(answer) <==> IsYesSpelling(PyStrip(answer))
  {
    var t := PyStrip(answer);
    var l := Lower(t);
    if |t| == 1 {
      LowerToLetter(t[0], 'y');
      assert l == [LowerChar(t[0])];
    } else if |t| == 3 {
      LowerToLetter(t[0], 'y');
      LowerToLetter(t[1], 'e');
      LowerToLetter(t[2], 's');
      assert l == [LowerChar(t[0]), LowerChar(t[1]), LowerChar(t[2])];
    }
  }

  /** Once the column exists and the cutoff parses, the filter can only fail by comparing a
      naive column with an aware cutoff or the other way round. */
  lemma FilterAfterChecks(table: Table, cutoffText: string, column: string, columnAware: bool)
    requires column in table.columns && ParseTimestamp(cutoffText).Success?
    ensures var r := FilterCsvByTimestamp(table, cutoffText, column, columnAware);
      && (r.Success? <==> (ParseTimestamp(cutoffText).value.offset.Some? <==> columnAware))
      && (r.Failure? ==> r.error == Incomparable)
  {
  }

  /** How a session ends once the input file is chosen. */
  datatype Outcome =
    | NoSuchColumn(column: string)
    | AwaitingCutoff              // no cutoff answer parses yet: the prompt is still being asked
    | Cancelled
    | Ran(outputFile: string, result: Result<seq<Stamped>, FilterError>)

  /** `main` after the input file is read: the column (checked against the table's columns),
      the cutoff the prompt accepted (`cutoffText`, the stripped answer that `AcceptedCutoff`
      picks; None while the prompt is still being asked), the output file, the confirmation,
      then the filter. */
  function Session(inputFile: string, table: Table, columnAnswer: string, cutoffText: Option<string>,
                   outputAnswer: string, confirmAnswer: string, columnAware: bool): (o: Outcome)
    ensures ChosenColumn(columnAnswer) !in table.columns ==> o == NoSuchColumn(ChosenColumn(columnAnswer))
    ensures ChosenColumn(columnAnswer) in table.columns && cutoffText.None? ==> o == AwaitingCutoff
    ensures ChosenColumn(columnAnswer) in table.columns && cutoffText.Some? ==>
              (o.Ran? <==> Confirmed(confirmAnswer))
    ensures o.Ran? ==> && cutoffText.Some?
                       && o.outputFile == ChosenOutput(outputAnswer, inputFile)
                       && o.result == FilterCsvByTimestamp(table, cutoffText.value, ChosenColumn(columnAnswer), columnAware)
    ensures o.Ran? && ParseTimestamp(cutoffText.value).Success? ==>
              && (o.result.Success? <==> (ParseTimestamp(cutoffText.value).value.offset.Some? <==> columnAware))
              && (o.result.Failure? ==> o.result.error == Incomparable)
  {
    var column := ChosenColumn(columnAnswer);
    if column !in table.columns then NoSuchColumn(column)
    else if cutoffText.None? then AwaitingCutoff
    else if !Confirmed(confirmAnswer) then Cancelled
    else
      var result := FilterCsvByTimestamp(table, cutoffText.value, column, columnAware);
      if ParseTimestamp(cutoffText.value).Success? then
        FilterAfterChecks(table, cutoffText.value, column, columnAware);
        Ran(ChosenOutput(outputAnswer, inputFile), result)
      else Ran(ChosenOutput(outputAnswer, inputFile), result)
  }
}
