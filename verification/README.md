# PigSpec harness core in Dafny

PigSpec is a Ruby mixin for functionally testing Pig scripts. A test writes
input fixture files and runs `pig` on a script with `-p name=value`
parameters. It then checks each expected output file against the file the
script produced, either line by line or ignoring line order. This project
models the deterministic part of that mixin as pure functions and proves
what each piece promises:

- `PigParams`: the parameter encoder `build_pig_script_params` and the
  command builder `build_cmd_line`.
- `Verify`: the output verifier. This covers `compare_pairs`,
  `print_mismatch_error` and `verify_output`, with the banner, the three
  guards in their fixed order, line splitting, optional sorting, the
  `nil`-padded zips, the two short-circuit passes and the per-file mismatch
  reports.
- `TestRun`: the state step of `test_pig_script`. The class-wide test
  counter goes up by one, and the expected output is stored for
  verification.
- Ruby library behaviour the above relies on:
  - `RubyCore`: `nil`-or-value slots, `Hash`-or-other arguments, `Array#zip`.
  - `Lines`: `String#split("\n")`, which drops every trailing empty field.
  - `Sorting`: `String#<=>` and `Array#sort`. The sort is proved to give the
    unique sorted permutation, so any sort Ruby uses agrees with it.
  - `Decimal`: `Integer#to_s` for the exit-code message, with a parser as
    its inverse.

Effects are replaced by values:

- `IO.read` becomes a map from file name to content.
- The output and error streams become the lists of lines written to them.
- `write_input_files` is represented by the input directory it names after
  the test number, and `run_script` by the exit code it leaves behind.

## Code versus its tests

The tests at spec/pig-spec/pig_unit_core_spec.rb:159-167 expect the command
line to start with the prefix immediately followed by the binary name and
` -x local`. The code at lib/pig-spec/pig_unit_core.rb:42-46 ignores the
binary argument and produces `pig`, a space, the flags and the script name.
The model follows the code. `PigParams.CmdLineNeverEmbedsBinary` proves that
the code can never produce the line those tests expect, for any non-empty
binary name that does not start with a space.

## Model

| member | source | states |
|---|---|---|
| RubyCore.Zip | lib/pig-spec/pig_unit_core.rb:120-121 | `xs.zip(ys)` has one pair per element of `xs`; the partner is the element of `ys` at the same index, or `nil` past the end of `ys` |
| Lines.SplitLines | lib/pig-spec/pig_unit_core.rb:114-117 | `split("\n")` never returns a trailing empty line |
| Lines.SplitLinesHaveNoNewline | lib/pig-spec/pig_unit_core.rb:114-117 | no line that `split("\n")` returns contains a newline |
| Lines.DropTrailingEmpty | lib/pig-spec/pig_unit_core.rb:114-117 | the lines `split` keeps are a prefix of the newline-separated fields, every field after that prefix is empty, and the last kept line is not |
| Lines.Fields | lib/pig-spec/pig_unit_core.rb:114-117 | cutting at every newline gives at least one field |
| Lines.FieldsHaveNoNewline | lib/pig-spec/pig_unit_core.rb:114-117 | no field cut at the newlines contains a newline |
| Lines.JoinFields | lib/pig-spec/pig_unit_core.rb:114-117 | joining the fields with newlines gives back the text, so cutting loses nothing |
| Lines.SplitOfJoin | lib/pig-spec/pig_unit_core.rb:114-117 | round trip: newline-free lines whose last line is non-empty come back unchanged from splitting their joined text |
| Lines.TrailingNewlinesIgnored | lib/pig-spec/pig_unit_core.rb:114-117 | contents that differ only in how many newlines they end with split to the same lines |
| Sorting.BelowReflexive | lib/pig-spec/pig_unit_core.rb:115-118 | `String#<=>`, which `sort` orders lines by, places every string at or below itself |
| Sorting.BelowAntisymmetric | lib/pig-spec/pig_unit_core.rb:115-118 | two strings each at or below the other are equal, so the order ranks distinct lines strictly |
| Sorting.BelowTransitive | lib/pig-spec/pig_unit_core.rb:115-118 | the string order is transitive |
| Sorting.BelowTotal | lib/pig-spec/pig_unit_core.rb:115-118 | any two strings are comparable, so `sort` never meets an incomparable pair |
| Sorting.Sort | lib/pig-spec/pig_unit_core.rb:115-118 | `lines.sort` is sorted under `String#<=>` and is a permutation of its input: the same multiset, duplicates kept |
| Sorting.SortedUnique | lib/pig-spec/pig_unit_core.rb:115-118 | two sorted sequences with the same multiset are equal, so the sorted result does not depend on the sorting algorithm or its stability |
| Sorting.SortEqualIffSameMultiset | lib/pig-spec/pig_unit_core.rb:115-118 | sorting both sides makes equality the same as equality of the multisets of lines |
| Decimal.IntToString | lib/pig-spec/pig_unit_core.rb:104-105 | the exit code's text is non-empty and starts with `-` exactly when the code is negative |
| Decimal.ParseIntToString | lib/pig-spec/pig_unit_core.rb:104-105 | round trip: the printed exit code reads back as the same integer |
| PigParams.AppendFlag | lib/pig-spec/pig_unit_core.rb:38 | the `reduce` block keeps the accumulator as a prefix, adds one space only after a non-empty accumulator, and ends with the `-p k=v` flag |
| PigParams.Reduce | lib/pig-spec/pig_unit_core.rb:37-39 | the fold only extends its accumulator, and its result is non-empty once there is a parameter |
| PigParams.ReduceIsJoin | lib/pig-spec/pig_unit_core.rb:37-39 | the `reduce` block, folded from any accumulator, appends the `-p k=v` flags in insertion order with exactly one space between each two and one space after a non-empty accumulator |
| PigParams.BuildPigScriptParams | lib/pig-spec/pig_unit_core.rb:31-40 | for a Hash: its flags in insertion order joined by single spaces, and no diagnostic; for any other class: `""` and exactly the one line `Params had unexpected class: <class>`; the text is empty exactly when there is no flag |
| PigParams.BuildCmdLine | lib/pig-spec/pig_unit_core.rb:42-46 | the line is `pig <flags> <script>` when there are flags, `pig <script>` otherwise; any diagnostic of the encoder is passed on |
| PigParams.CmdLineIgnoresBinary | lib/pig-spec/pig_unit_core.rb:42-46 | the command line is the same for every binary argument |
| PigParams.CmdLineNeverEmbedsBinary | lib/pig-spec/pig_unit_core.rb:42-46 | no command line equals the prefix followed directly by a non-empty binary name that does not start with a space, the form spec/pig-spec/pig_unit_core_spec.rb:159-167 expects |
| PigParams.TwoParamsExample | spec/pig-spec/pig_unit_core_spec.rb:124-128 | `{"foo"=>123, "bAr"=>"234"}` encodes as `-p foo=123 -p bAr=234` |
| Verify.MismatchHeader | lib/pig-spec/pig_unit_core.rb:77-79 | the header quotes the file name between a fixed lead and `':`, so the name can be read back from it |
| Verify.MismatchReport | lib/pig-spec/pig_unit_core.rb:84-86 | a report is three lines: the header of its file, then the expected and the actual line, each recoverable from between its fixed lead and closing quote |
| Verify.MismatchReportInjective | lib/pig-spec/pig_unit_core.rb:77-86 | two equal reports name the same file, the same expected line and the same actual line |
| Verify.FirstMismatch | lib/pig-spec/pig_unit_core.rb:82-88 | reference for the `each` loop's early return: there is no first mismatching index exactly when every pair matches; otherwise the index is in range, that pair does not match, and every pair before it does |
| Verify.ComparePairs | lib/pig-spec/pig_unit_core.rb:81-90 | succeeds with no output exactly when every pair matches, `nil` matching no line; otherwise writes one header/Expected/Actual triple for the pair at the first mismatching index, reading the two lines from the slots the mapping names |
| Verify.ForwardPass | lib/pig-spec/pig_unit_core.rb:120 | the pass over `expected.zip(actual)` succeeds exactly when `expected` is a prefix of `actual`; when it fails, it reports the first differing position |
| Verify.BackwardPass | lib/pig-spec/pig_unit_core.rb:121 | once `expected` is a prefix of `actual`, the pass over `actual.zip(expected)` succeeds exactly when they are equal; when it fails, it reports the first differing position, with the expected line printed as `''` |
| Verify.CompareLines | lib/pig-spec/pig_unit_core.rb:120-121 | the two short-circuited passes succeed exactly when the line sequences are identical; otherwise exactly one triple is written, for the least index below the longer length where they differ, an absent line printing as `''` |
| Verify.Arrange | lib/pig-spec/pig_unit_core.rb:115-118 | the lines are kept as they are when order matters and sorted when it does not; either way they are the same lines the same number of times |
| Verify.FileCheck | lib/pig-spec/pig_unit_core.rb:113-121 | a file matches iff its lines equal the expected lines when order matters, or iff the two multisets of lines are equal when it does not; a failing file writes exactly one triple, headed by its name, for the first difference of the (sorted) lines |
| Verify.FailingPairsFail | lib/pig-spec/pig_unit_core.rb:113-124 | every file the loop counts as failing is one of the expected files, and its lines do not match |
| Verify.FailingPairsListed | lib/pig-spec/pig_unit_core.rb:113-124 | conversely, every expected file whose lines do not match is counted as failing |
| Verify.FailingPairsComplete | lib/pig-spec/pig_unit_core.rb:113-124 | no file is counted as failing exactly when every expected file matches, and each non-matching expected file is among the failing ones |
| Verify.CompareFiles | lib/pig-spec/pig_unit_core.rb:109-125 | the loop passes iff every expected file matches; a failure does not stop later files, so the error log holds one three-line report per failing file, in Hash order, each headed by that file's name |
| Verify.CompareFilesSilentIffOk | lib/pig-spec/pig_unit_core.rb:109-125 | the loop over the expected files passes exactly when it writes nothing to the error stream |
| Verify.CompareFilesLog | lib/pig-spec/pig_unit_core.rb:109-125 | the loop's error log consists exactly of the failing files' reports, three lines each, in Hash order, and is empty exactly when the loop passes |
| Verify.CompareFilesReports | lib/pig-spec/pig_unit_core.rb:109-125 | the k-th three-line block of the loop's error log is exactly the report that file's check writes for the k-th failing file, expected and actual lines included |
| Verify.VerifyOutput | lib/pig-spec/pig_unit_core.rb:92-129 | the banner is always written first; the guards are checked in order (not a Hash, then empty, then non-zero exit code), each giving `false` and its own single message; otherwise the result is true iff every expected file matches, true exactly when nothing is written to the error stream, and the error stream holds one three-line report per failing file, in `Hash` order: the k-th is headed by the k-th failing file's name and is exactly the report `FileCheck` gives for that file, its first differing expected and actual lines included |
| Verify.GuardsReadNoFiles | lib/pig-spec/pig_unit_core.rb:96-107 | when a guard fails, the outcome and both logs are the same whatever the files contain |
| Verify.TrailingNewlinesDoNotMatter | lib/pig-spec/pig_unit_core.rb:114 | extra newlines at the end of the produced file change neither the outcome nor the report |
| Verify.OrderedMatchImpliesUnordered | lib/pig-spec/pig_unit_core.rb:115-118 | a file that matches with order significant also matches with order ignored |
| Verify.ExtraActualLine | spec/pig-spec/pig_unit_core_spec.rb:298-310 | one produced line more than expected fails, reporting an empty expected line and the extra produced line |
| Verify.ExtraExpectedLine | spec/pig-spec/pig_unit_core_spec.rb:312-324 | one expected line more than produced fails, reporting the extra expected line and an empty actual line |
| TestRun.InputDirName | lib/pig-spec/pig_unit_core.rb:62 | the input directory is `pig_test_` followed by the test number in decimal |
| TestRun.InputDirNamesDistinct | lib/pig-spec/pig_unit_core.rb:62 | different test numbers give different input directories |
| TestRun.TestPigScript | lib/pig-spec/pig_unit_core.rb:21-29 | the test counter goes up by exactly one, the input directory is named after the new number, the expected output becomes the given value whatever its class, and the exit code is the one the opaque script run left |
| TestRun.RunTests | lib/pig-spec/pig_unit_core.rb:21-29 | over consecutive invocations the i-th one gets test number start+i+1, so the numbers strictly increase and are never reused, no two invocations share an input directory, and the last invocation's expected output is the one kept |
| TestRun.FreshHarnessHasNothingToVerify | lib/pig-spec/pig_unit_core.rb:9-15 | verifying with a freshly initialised harness fails with `No output files to verify.` |

## Left out

- `run_script` (lib/pig-spec/pig_unit_core.rb:48-59) is left out. It runs a subprocess, changes the working directory and reads `Process::Status`, all of which are process and file-system effects. `TestRun` takes its outcome, the exit code, as a given value.
- `write_input_files` (lib/pig-spec/pig_unit_core.rb:61-75) is modelled only by the directory name it chooses. Removing and creating directories and writing the fixture files are file-system effects and are left out. `File.expand_path` is left out too because it depends on the working directory, so `TestRun.InputDirName` is the relative name.
- Verify.VerifyOutput: `IO.read` and the directory switches around it are replaced by a map from file name to content. A missing expected file raises an uncaught I/O error in the source, so the model instead requires every expected file to be present whenever the guards let the check reach the files.
- Verify.VerifyOutput: the exit code is an integer printed in decimal, as when it is stubbed in the tests. In real runs it is a `Process::Status`, whose text form is not modelled.
- TestRun.TestPigScript: the reassignment of the two stream variables to themselves (lib/pig-spec/pig_unit_core.rb:22-23) is left out because it changes nothing.
- Output and error streams are modelled as lists of lines. `.class` is modelled only as a Hash/other-class tag carrying the class name.
- PigParams.BuildPigScriptParams: the keys and values are modelled as the strings `to_s` gives them (lib/pig-spec/pig_unit_core.rb:38). Keys are distinct after `to_s`, so a Hash such as `{:a=>"1", "a"=>"2"}`, which the source encodes as `-p a=1 -p a=2`, cannot be represented.
- Verify.VerifyOutput: the expected output is modelled as a Hash of String names to String contents. `verify_output` never calls `to_s`: a non-String content raises `NoMethodError` at `split` (lib/pig-spec/pig_unit_core.rb:117), and a Symbol key such as the one in the fixture at spec/pig-spec/pig_unit_core_spec.rb:14 raises `TypeError` at `IO.read` (line 114). These crash paths are not modelled.
- String ordering compares character codes. This matches Ruby's byte order on valid UTF-8; locale and encoding details are left out.
- The class-wide counter is not thread-safe in the source. The model is sequential.
