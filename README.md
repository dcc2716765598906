# Image annotation tool — a Dafny model

ImageAnnotationWebTool is a small web tool for rating images. A browser page (script.js) shows
the images of a folder one at a time. The j/k keys move between images and h/l mark the one on
screen "Bad" or "Good". Each mark is appended to `annotations.csv` by a Flask server
(server.py). Because the same image can be marked many times, the server and a command-line
tool (deduplicate_csv.py) deduplicate the file: they keep, for every image path, the mark with
the latest timestamp, sort the result by path, and report counts and a quality distribution.
Two more scripts (filter_by_timestamp.py, filter_csv_interactive.py) keep the rows whose
timestamp is strictly later than a cutoff. The cutoff is written in one of six formats, which
are tried in order.

This project models that logic and proves its properties:

- `Annotations`: the annotation row and table, and the deduplication contract
  `LatestPerPath`. That contract says the output has one row per path of the input and no
  other path, each row is a latest row of its path, and the rows are sorted by path. The
  module also holds the pandas pipeline (timestamp sort, `groupby().tail(1)`, path sort), the
  quality histogram, `os.path.splitext` and the default output name.
- `Server`: server.py's helpers.
  - `is_image_file` with `PurePosixPath` name and suffix rules.
  - `get_image_files` over a given list of walked paths.
  - `save_to_csv`, a class over the file's existence and lines.
  - The stdlib deduplicator: its dict loop, its histogram loop and its missing-key failures.
  - The `deduplicate_csv_file` dispatch.
- `DeduplicateCsv`: `deduplicate_annotations`, the file choice in `main` and its exit status.
- `FilterByTimestamp` (with `Calendar`): `parse_timestamp`, which returns the first of six
  `strptime` formats that accepts the text, then the strict `>` mask, then the exit status.
- `FilterCsvInteractive`: filter_csv_interactive.py repeats `parse_timestamp` and
  `filter_csv_by_timestamp` (filter_csv_interactive.py:13-86), and the functions of
  `FilterByTimestamp` model both copies. This module holds the decisions `main` takes on the answers typed at its prompts.
  These are the default column, the cutoff prompt that repeats until the cutoff parses, the
  default output file, the confirmation, and the outcome of a session.
- `Script`: the page's state. The `Annotator` class holds `images`, `currentIndex` and
  `annotations`, with the handlers `nextImage`, `previousImage`, `markImage`,
  `handleKeyPress` and the reset in `loadImages`. Functions on a `View` of that state give
  each handler's effect. Lemmas about those functions state the page's properties: the index
  stays in bounds, a mark touches one entry, key dispatch ignores letter case, the progress
  counter reads back, and the two kinds of image name relate.
- `Text`, `Sequences` and `Wrappers` hold the shared pieces:
  - Python's and JavaScript's lower-casing and stripping;
  - the string order;
  - decimal rendering;
  - a stable sort, a filter and a first-match search.

Timestamps in table rows are integer instants in microseconds; conversion of a row's cell is
outside the model. Files, the clock and the server's replies are parameters: whether a file
exists, the table read, the stamp `datetime.now()` produces, the page's clock reading, and the
listing reply.

Where the code and its documentation disagree, the model follows the code:

- The stdlib deduplicator replaces a kept row only on a strictly later timestamp
  (server.py:175). Among rows tied for the latest timestamp, the first one read is kept.
- The stdlib deduplicator checks no schema. A missing `image_path` or `timestamp` column
  fails on the first record. A missing `quality` column fails only when qualities are
  counted. A table without rows succeeds whatever its columns.
- The pandas deduplicator's timestamp sort is not stable. The model takes that sort's order
  as a parameter, any timestamp-sorted rearrangement of the rows. For the pandas path it
  claims only that each kept row is some latest row of its path.
- Comparing a naive column with an aware cutoff, or the other way round, raises inside the
  filter. That exception is caught, so the filter then fails (the `Incomparable` error).
- The interactive tool's default output replaces every ".csv" in the input path.
  `DefaultOutputDiffers` shows that an input path without ".csv" gets itself as the default
  output, so the filtered table would overwrite the input.

## Model

| member | source | states |
|---|---|---|
| Text.Lower | server.py:28 | lower-casing keeps the length and lowers each character: capitals A-Z by 32, the Kelvin sign to 'k', everything else unchanged |
| Text.Strip | deduplicate_csv.py:105 | `strip()`: the result neither starts nor ends with white space, and it is the infix of the input with only white space around it |
| Text.StripEmptyIffBlank | filter_csv_interactive.py:117-118 | a stripped answer is empty exactly when the answer is all white space |
| Text.AfterLast | script.js:108 | the last piece of a split: a suffix of the text with no separator in it, preceded by a separator unless it is the whole text |
| Text.BelowTotal | server.py:181 | Python's string order compares any two strings |
| Text.BelowAntisymmetric | server.py:181 | two strings each at most the other are equal |
| Text.BelowTransitive | server.py:181 | the string order is transitive |
| Text.LeadingDigits | filter_by_timestamp.py:20 | `%f` reads the longest run of digits: a prefix of digits followed by a non-digit or the end |
| Text.LeadingDigitsOf | filter_by_timestamp.py:20 | digits followed by a non-digit are exactly the leading digits |
| Text.DecimalRoundTrip | script.js:276 | reading back a rendered number gives the number |
| Text.DecimalInjective | script.js:276 | different numbers render differently |
| Text.ReplaceAllLength | filter_csv_interactive.py:152 | `replace` changes nothing when the pattern does not occur, and with a longer replacement makes the text longer when it does |
| Sequences.SortBy | server.py:181 | sorting by a key gives a sequence sorted by that key with the same elements, each as often |
| Sequences.Filter | filter_by_timestamp.py:71 | the mask keeps only elements that satisfy it, and every element that does |
| Sequences.FilterAppend | filter_by_timestamp.py:71 | the mask keeps the rows in their order: filtering a concatenation concatenates the filtered parts |
| Sequences.FilterCount | server.py:40-41 | each element is kept exactly as often as it occurs when it satisfies the condition, and never otherwise |
| Sequences.FilterPartition | filter_by_timestamp.py:71 | what a condition keeps and what its complement keeps add up to the input |
| Sequences.FirstSome | filter_by_timestamp.py:28-34 | the first item an attempt succeeds on, with all earlier attempts failing; none exactly when every attempt fails |
| Calendar.OrdinalMonotone | filter_by_timestamp.py:71 | of two valid dates, the earlier one has the smaller day number |
| Calendar.InstantMonotone | filter_by_timestamp.py:71 | of two readings with the same offset, the earlier one denotes the smaller instant |
| Calendar.InstantOrder | filter_by_timestamp.py:71 | with the same offset, one instant is smaller exactly when its reading is earlier, and equal exactly when the readings agree, so comparing instants compares timestamps |
| Annotations.Missing | server.py:101-102 | the missing-column list holds exactly the required columns absent from the header |
| Annotations.PathsBound | server.py:183 | there are never more distinct paths than rows, and as many when paths are unique |
| Annotations.SortedUniqueEqual | deduplicate_csv.py:57-59 | two path-sorted tables with unique paths that hold the same rows are equal |
| Annotations.LatestIdempotent | deduplicate_csv.py:49-59 | deduplicating a deduplicated table gives it back |
| Annotations.LatestCount | deduplicate_csv.py:61-62 | the deduplicated table has one row per distinct input path, never more rows than the input |
| Annotations.ScenarioLatest | deduplicate_csv.py:49-59 | for rows (A,good,10), (A,bad,11), (B,good,9) the only admissible output is (A,bad,11), (B,good,9) |
| Annotations.KeepLast | server.py:114-115 | `groupby("image_path").tail(1)` keeps rows of the table, one per path, covering every path |
| Annotations.KeepLastKeepsLast | server.py:114-115 | each row `tail(1)` keeps is the last row of its path in the table: no later row has its path |
| Annotations.KeepLastIsLatest | deduplicate_csv.py:50-52 | after an ascending timestamp sort, each row `tail(1)` keeps has the maximum timestamp of its path |
| Annotations.PandasLatest | server.py:112-122 | the pandas pipeline (timestamp sort, tail(1), path sort) meets the deduplication contract for any order the unstable sort returns |
| Annotations.BumpFacts | server.py:203 | one counting step adds one to the count of its quality and keeps the keys distinct and the counts positive |
| Annotations.TallyMeaning | server.py:200-203 | the quality distribution has one positive entry per quality present, each equal to the number of rows with that quality, summing to the row count |
| Annotations.ReportConsistent | deduplicate_csv.py:76-84 | kept and removed add up to the original count, removed is non-negative, kept is the number of distinct paths, and each distribution entry counts the kept rows of its quality |
| Annotations.SlashAfterLastDot | server.py:128 | a '/' after the last '.' means the last component has no extension |
| Annotations.OnlyLastDot | server.py:128 | only the last '.' can start an extension |
| Annotations.SplitExtRoot | server.py:128 | `splitext(p)[0]` is a prefix of p. When shorter, it is cut at a '.' that starts the last component's extension, with a stem that is not all dots. When it is all of p, no such '.' exists |
| Annotations.PandasDeduplicate | server.py:94-147 | fails exactly when a required column is missing, with the missing list. On success it meets the deduplication contract, with consistent counts, a distribution that is the tally of the kept rows (each quality's count is its number of kept rows, as `value_counts()` gives), and the given output name or `<root>_deduplicated_<stamp>.csv` |
| Server.SplitSlash | server.py:28 | `p.split("/")` has at least one piece, the last being the text after the last '/' |
| Server.SplitSlashFree | server.py:28 | no piece of `p.split("/")` holds a '/' |
| Server.SplitSlashJoin | server.py:28 | joining the pieces of `p.split("/")` with '/' gives `p` back |
| Server.FinalComponent | server.py:28 | `PurePosixPath(p).name` contains no '/' |
| Server.FinalComponentIsLastComponent | server.py:28 | that name is the last of the pieces `PurePath` keeps (pieces between slashes, without empty and "." pieces), or empty when none is kept |
| Server.Suffix | server.py:28 | `suffix` is empty or the name's tail from its last '.', at least two characters, shorter than the name |
| Server.SuffixAt | server.py:28 | when the last '.' sits strictly inside the name, before its last character, the suffix is the tail from that '.' |
| Server.IsImageFileIff | server.py:20-28 | a path is an image file exactly when its name is a non-empty stem followed by one of the seven extensions, in any letter case |
| Server.GetImageFiles | server.py:31-43 | a missing folder lists nothing. Otherwise the list is sorted ascending and holds every walked image path as often as it was walked, and nothing else |
| Server.Basename | server.py:61 | `basename` is the text after the last '/' |
| Server.RecordsOf | server.py:60-69 | one record per annotation, in order, each with the basename as `image_name` and quality and timestamp copied |
| Server.RecordsOfPrefix | server.py:60-69 | the records of one more annotation are the earlier records plus its own |
| Server.AnnotationFile.SaveToCsv | server.py:46-69 | afterwards the file exists. Its lines are the old lines unchanged, then the header only when the file did not exist, then one record per annotation |
| Server.GroupsKeys | server.py:166-177 | the dict `image_groups` has one key per input path |
| Server.GroupsMeaning | server.py:166-177 | each kept row is a latest row of its path, and among tied latest rows the first one read (strict `>`) |
| Server.ValuesInOrder | server.py:180 | the dict's values in its insertion order |
| Server.ValuesPaths | server.py:180 | the values of a dict keyed by path hold one row per key, and each row is the one stored under its path |
| Server.SortedGroups | server.py:180-181 | the dict's values sorted by path meet the deduplication contract |
| Server.LatestRecords | server.py:166-181 | the dict loop and the sort meet the deduplication contract, keeping the first-read latest row of each path |
| Server.QualityCounts | server.py:200-203 | the histogram loop gives distinct positive counts, one per quality present, each the number of rows with it, totalling the row count |
| Server.DeduplicateWithStdlib | server.py:153-218 | fails exactly when there are rows and `image_path`, `timestamp` or `quality` is missing, naming the first missing key. On success it gives the contract, first-read ties, counts, a distribution that is the tally of the kept rows (each quality's count is its number of kept rows) and the output name |
| Server.DeduplicateCsvFile | server.py:77-91 | a missing input fails first. With pandas it is the pandas deduplication. Without pandas it has every outcome of the stdlib deduplicator: its missing-key failures, first-read ties, counts, distribution and output name. Any success meets the deduplication contract |
| DeduplicateCsv.DeduplicateAnnotations | deduplicate_csv.py:13-90 | succeeds exactly when the input exists and no required column is missing. A missing input and missing columns give their errors. With the input present it is the pandas deduplication. Success meets the contract, with the original, kept and removed counts, a distribution that is the tally of the kept rows, and the given output name or `<root>_deduplicated_<stamp>.csv` |
| DeduplicateCsv.ChooseFiles | deduplicate_csv.py:100-111 | with arguments, the first is the input and the second, if any, the output. Otherwise a blank input answer gives `annotations.csv` and any other the stripped answer; a blank output answer gives a generated name and any other the stripped answer |
| DeduplicateCsv.ExitStatus | deduplicate_csv.py:114-120 | the exit status is 0 exactly when the chosen input exists and has every required column, and 1 otherwise |
| FilterByTimestamp.Number | filter_by_timestamp.py:22 | a field parses exactly when it is a non-empty run of digits |
| FilterByTimestamp.ParseDate | filter_by_timestamp.py:23 | `%Y-%m-%d` (or with '/') accepts only real dates |
| FilterByTimestamp.ParseClock | filter_by_timestamp.py:22 | `%H:%M:%S` accepts only times of day |
| FilterByTimestamp.ParseZone | filter_by_timestamp.py:20-21 | `%z` gives an offset strictly within one day |
| FilterByTimestamp.FractionMicros | filter_by_timestamp.py:20 | `%f` gives microseconds below one million |
| FilterByTimestamp.DateAndClock | filter_by_timestamp.py:22 | a date and time read from 19 characters is a valid value carrying the given fraction and offset |
| FilterByTimestamp.Strptime | filter_by_timestamp.py:19-30 | each format yields only valid values, aware exactly for the two `%z` formats |
| FilterByTimestamp.ParseTimestamp | filter_by_timestamp.py:14-34 | a parse gives a valid value. A failure names the text |
| FilterByTimestamp.ParseTimestampFirstMatch | filter_by_timestamp.py:28-34 | parsing succeeds exactly when some format accepts the text, and then gives the value of the first format that does |
| FilterByTimestamp.FirstFormatWins | filter_by_timestamp.py:28-30 | when format k is the first to accept the text, its value is the parse |
| FilterByTimestamp.ParseDateOnly | filter_by_timestamp.py:23 | "2025-08-18" parses as midnight of that day, naive |
| FilterByTimestamp.FracZoneShape | filter_by_timestamp.py:20 | the first format reads date-time, '.', one to six digits and an offset |
| FilterByTimestamp.ParseFractionAndZone | filter_by_timestamp.py:20 | such text parses with the first format, whatever the later ones say, to an aware value with the fraction's microseconds and the offset's minutes |
| FilterByTimestamp.ToolStampParts | filter_by_timestamp.py:20 | the parts of "2025-08-18 02:03:32.457000+00:00" meet those conditions and denote 2025-08-18 02:03:32.457 UTC |
| FilterByTimestamp.FractionWithoutZone | filter_by_timestamp.py:19-34 | "2025-08-18 02:03:32.457" matches no format and fails |
| FilterByTimestamp.NotADate | filter_by_timestamp.py:34 | "not-a-date" fails with the error naming it |
| FilterByTimestamp.FilterCsvByTimestamp | filter_by_timestamp.py:37-86 | a missing column fails with the available columns. An unparseable cutoff fails with the parse error. Success exactly when naive/aware agree, and the result is the mask over the table: the rows strictly later than the cutoff, all of them, in table order |
| FilterByTimestamp.NewerRows | filter_by_timestamp.py:71 | the mask keeps each row exactly as often as it occurs when strictly later and never otherwise. Kept and dropped add up to the table. The mask preserves order |
| FilterByTimestamp.ExitStatus | filter_by_timestamp.py:103-116 | exit status 0 exactly when the input exists and the filter succeeds, and 1 otherwise |
| FilterCsvInteractive.ChosenColumn | filter_csv_interactive.py:117-119 | a blank answer gives `timestamp`, any other the stripped answer |
| FilterCsvInteractive.AcceptedCutoff | filter_csv_interactive.py:138-147 | the accepted cutoff is the first answer whose stripped text parses, all earlier ones failing, and it is a valid value. None exactly when no answer parses |
| FilterCsvInteractive.DefaultOutputDiffers | filter_csv_interactive.py:151-152 | the default output equals the input exactly when the input contains no ".csv" |
| FilterCsvInteractive.DefaultOutputOfCsv | filter_csv_interactive.py:152 | a path whose only ".csv" is its ending gets "_filtered.csv" in its place |
| FilterCsvInteractive.ChosenOutput | filter_csv_interactive.py:150-153 | a blank answer gives the default output, any other the stripped answer |
| FilterCsvInteractive.LowerToLetter | filter_csv_interactive.py:162 | a character lowers to a letter other than 'k' exactly when it is that letter or its capital |
| FilterCsvInteractive.ConfirmedIff | filter_csv_interactive.py:162-165 | the run is confirmed exactly when the stripped answer spells "y" or "yes" in any letter case |
| FilterCsvInteractive.FilterAfterChecks | filter_csv_interactive.py:36-86 | with the column present and the cutoff parsed, the filter fails only on a naive/aware mismatch |
| FilterCsvInteractive.Session | filter_csv_interactive.py:117-171 | an unknown column ends the session, a cutoff not yet accepted keeps it waiting, and otherwise it runs exactly when confirmed. A run filters with the chosen column and cutoff into the chosen output, failing only on a naive/aware mismatch |
| Script.HandlersKeepBounds | script.js:191-206 | every handler keeps the index on an image, or at 0 with none loaded |
| Script.NavigationSteps | script.js:191-206 | "j" changes the state exactly when an image follows and then moves one on. "k" likewise backwards. Nothing else changes |
| Script.NextPreviousInverse | script.js:191-206 | away from the ends, previous undoes next and next undoes previous |
| Script.AdvanceStopsAtLast | script.js:200-206 | n presses of next move n images on, stopping at the last, and change nothing else |
| Script.MarkSetsOneEntry | script.js:219-229 | a mark sets the entry of the image on screen to the quality and time, adds no other key, and leaves other entries unchanged. With no images it does nothing |
| Script.LatestMarkWins | script.js:226-229 | marking the same image again replaces the earlier mark |
| Script.StatusAfterMark | script.js:280-290 | after a mark the status line shows the image's name and the new quality |
| Script.LowerIdempotent | script.js:31 | lower-casing twice is lower-casing once |
| Script.KeyCaseInsensitive | script.js:31 | a key acts as its lower-cased form |
| Script.KeyBindings | script.js:28-48 | j/J goes next, k/K previous, h/H marks Bad, l/L marks Good, once images are loaded |
| Script.OtherKeysIgnored | script.js:28-48 | other keys, and every key while no image is loaded, change nothing |
| Script.LoadIgnored | script.js:52-101 | a blank folder field or a failed listing changes nothing |
| Script.LoadStartsOver | script.js:80-89 | a listing replaces the images, shows the first one unmarked with the counter at 1 of n, and clears the marks |
| Script.ProgressReadsBack | script.js:271-277 | the counter reads back as (index+1, count), with 1 ≤ index+1 ≤ count |
| Script.AfterLastMoreSeparators | script.js:108 | splitting at more separators leaves a suffix of what fewer separators leave |
| Script.NamesAgreeUnlessBackslash | script.js:108 | the displayed name (after the last '/' or '\') ends the status name (after the last '/'). They agree exactly when the status name has no backslash |
| Script.Annotator.constructor | script.js:2-4 | the page starts with no images, index 0 and no marks |
| Script.Annotator.NextImage | script.js:200-206 | the new state is `Next` of the old |
| Script.Annotator.PreviousImage | script.js:191-197 | the new state is `Previous` of the old |
| Script.Annotator.MarkImage | script.js:219-229 | the new state is `Mark` of the old with the quality and time |
| Script.Annotator.MarkGood | script.js:209-211 | marks the image on screen "Good" |
| Script.Annotator.MarkBad | script.js:214-216 | marks the image on screen "Bad" |
| Script.Annotator.HandleKeyPress | script.js:28-49 | the new state is `Key` of the old, and the index stays in bounds |
| Script.Annotator.LoadImages | script.js:52-101 | the new state is `Load` of the old with the folder text and the reply |

## Left out

- File and network I/O are parameters: reading and writing CSV files, `os.walk`,
  `os.path.exists`, `datetime.now()`, `new Date().toISOString()` and the server calls.
- Flask routes, image serving and MIME guessing (server.py:221-367), start.py,
  test_file_access.py and simple_test_server.py are I/O glue.
- Console output and the prompting itself are left out.
  - The input-file loop and table read in the interactive `main` (filter_csv_interactive.py:94-114) are not modelled.
  - Its preview of the timestamp range (filter_csv_interactive.py:125-135) is not modelled either.
- Row timestamps are instants already converted. A cell `pd.to_datetime` or
  `datetime.fromisoformat` cannot convert would raise, and that path is not modelled. This
  includes the early return of the interactive `main` when the column does not convert.
- pandas `value_counts()` orders the distribution by count. The model's distribution lists the
  same counts in the order the qualities first occur among the kept rows, and the contracts
  state each quality's count, not the order of the entries.
- Server.DeduplicateWithStdlib and Server.DeduplicateCsvFile: a row's timestamp is an instant,
  with no record of whether its text carried an offset. When two rows of one `image_path`
  hold a naive and an aware timestamp (say "2025-08-18T02:03:32" and "2025-08-18T02:03:33Z"),
  both convert, but the comparison at server.py:175 raises `TypeError` and the stdlib
  deduplicator fails (server.py:217-218). The model does not have that failure: there it
  succeeds.
- FilterByTimestamp.FilterCsvByTimestamp: every row carries an instant. A timestamp cell that
  `pd.read_csv` reads as missing (empty, "NA", "null" and the like) becomes NaT after
  `pd.to_datetime`, and `NaT > cutoff` is false, so the source drops such rows whatever the
  cutoff, without an error; the model has no such rows. pandas also keeps nanoseconds, while
  the model's instants count microseconds.
- Writing failures of `save_to_csv` and of the output files are not modelled.
- script.js is left out where it touches the DOM, `localStorage`, or `saveAnnotations`, or
  uses floats.
  - Also not modelled: the floating-point progress bar width (script.js:274-275) and the image
    load callbacks.
  - The `setTimeout` auto-advance (script.js:238-242) is left out. Its callback is the
    `NextImage` step behind the same guard, and when it fires is not part of the model.
- FilterByTimestamp.Strptime: only zero-padded, single-space shapes of the six formats with
  ASCII digits and a minutes-only offset are matched, so the concrete matcher is weaker than
  `strptime`. The first-match property holds for any matcher. Texts `strptime` accepts and
  the matcher does not:
  - single-digit fields;
  - a run of white space (several spaces, a tab) where the format has one space, since
    `strptime` reads a format space as any white space;
  - an offset with seconds or a fraction, such as "+05:30:00" or "+05:30:00.5";
  - non-ASCII decimal digits, which `\d` and `int()` accept.
- FilterByTimestamp.ParseFractionAndZone: this is stated for every date-time, fraction and
  offset of the right shape, not for one literal text.
  - ToolStampParts covers the tool's own example, "2025-08-18 02:03:32.457000+00:00".
  - ParseDateOnly and FractionWithoutZone cover single literal texts.
- FilterCsvInteractive.Session: this takes the cutoff the prompt accepted rather than the list
  of answers. AcceptedCutoff models the prompt loop that picks it.
- Annotations.Missing: the contract states which columns are listed, not their order. The
  definition lists them in the order of `required_columns`.
- Annotations.PandasDeduplicate, Annotations.PandasLatest and
  DeduplicateCsv.DeduplicateAnnotations: cells `pd.read_csv` reads as missing (an empty cell,
  "NA", "null", "None", "nan" and the like) are not modelled; every cell is a value. On tables
  with such cells pandas differs from the model: `groupby` drops rows whose path is missing,
  so fewer rows are kept than there are distinct path texts; `value_counts()` drops missing
  qualities, so the distribution totals less than the kept count; a missing timestamp becomes
  NaT, which the timestamp sort puts last, so `tail(1)` keeps it. The stdlib deduplicator
  reads such cells as text and matches the model.
- Server.Basename, Server.FinalComponent and Annotations.SplitExtRoot: only the POSIX reading
  of `os.path.basename`, `Path` and `os.path.splitext` (server.py:28, 61, 128) is modelled,
  with '/' as the only separator. On Windows `\` also separates, so `basename` of
  `C:\photos\a.jpg` is `a.jpg` where the model gives the whole text.
- Annotations.PandasLatest: this says which rows are kept, not which of several rows tied for
  the latest timestamp. pandas' timestamp sort is not stable, so that choice is unspecified.
- Text.Lower: only characters whose lower-case form is ASCII are mapped (A-Z and the Kelvin
  sign). Other letters are kept as they are, so the contract is weaker than full Unicode
  lower-casing. Every letter the tool compares against is ASCII.
