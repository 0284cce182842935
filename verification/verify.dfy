/**
 The output verifier: `compare_pairs`, `print_mismatch_error` and
 `verify_output`. Reading a file (`IO.read`) is replaced by a map from file
 name to content, and the two output streams by the lists of lines written
 to them.
 */
module Verify {
  import opened RubyCore
  import opened Lines
  import opened Sorting
  import Decimal

  const Rule: string := "----------------------------------"

  /** The three lines written to standard output before anything is checked. */
  const Banner: seq<string> := [Rule, "| Verifying Pig script output... |", Rule]

  const NoOutputMessage: string := "No output files to verify."

  function UnexpectedOutputMessage(className: string): string
  {
    "Expected hash of expected output with (filename, file content) pairs. Unexpected class: " + className
  }

  function ExitCodeMessage(exitCode: int): string
  {
    "Pig script exited with non-zero exit code: " + Decimal.IntToString(exitCode) + "."
  }

  /**
   `print_mismatch_error` (lib/pig-spec/pig_unit_core.rb:77-79): the file name
   sits between a fixed 22-character lead and the closing `':`, so it can be
   read back from the header.
   */
  function MismatchHeader(file: string): (r: string)
    ensures |r| == |file| + 24
    ensures r[..22] == "Mismatch detected in '" && r[|r| - 2..] == "':"
    ensures r[22..|r| - 2] == file
  {
    "Mismatch detected in '" + file + "':"
  }

  /**
   The three lines written for the mismatch of one file: the header, then the
   expected and the actual line, each quoted after a fixed 17-character lead.
   */
  function MismatchReport(file: string, expected: string, actual: string): (r: seq<string>)
    ensures |r| == 3 && r[0] == MismatchHeader(file)
    ensures |r[1]| == |expected| + 18 && r[1][..17] == "\tExpected line: '" && r[1][|r[1]| - 1] == '\''
    ensures r[1][17..|r[1]| - 1] == expected
    ensures |r[2]| == |actual| + 18 && r[2][..17] == "\tActual line:   '" && r[2][|r[2]| - 1] == '\''
    ensures r[2][17..|r[2]| - 1] == actual
  {
    [MismatchHeader(file), "\tExpected line: '" + expected + "'", "\tActual line:   '" + actual + "'"]
  }

  /** A report names exactly one file, one expected line and one actual line. */
  lemma MismatchReportInjective(file1: string, expected1: string, actual1: string,
                                file2: string, expected2: string, actual2: string)
    requires MismatchReport(file1, expected1, actual1) == MismatchReport(file2, expected2, actual2)
    ensures file1 == file2 && expected1 == expected2 && actual1 == actual2
  {
  }

  /** One element of a zipped array: a line and its partner, `nil` when absent. */
  type Pair = (string, Option<string>)

  /** An index into a `Pair`, as found in the `mapping` argument of `compare_pairs`. */
  type Slot = i: nat | i < 2

  /** The `mapping` argument: which slot of a pair holds the expected line and which the actual one. */
  datatype Roles = Roles(expected: Slot, actual: Slot)

  const ExpectedFirst: Roles := Roles(0, 1)
  const ActualFirst: Roles := Roles(1, 0)

  /** `pair[0] == pair[1]`: `nil` equals no line. */
  predicate PairMatches(p: Pair)
  {
    p.1 == Some(p.0)
  }

  /** `"#{pair[i]}"`. */
  function Element(p: Pair, i: Slot): string
  {
    if i == 0 then p.0 else Show(p.1)
  }

  /** Whether a comparison succeeded, and the lines it wrote to the error stream. */
  datatype Check = Check(ok: bool, err: seq<string>)

  /**
   Reference definition: the index of the first pair that does not match, or
   none when every pair matches.
   */
  function FirstMismatch(pairs: seq<Pair>): (r: Option<nat>)
    ensures r.None? <==> forall i | 0 <= i < |pairs| :: PairMatches(pairs[i])
    ensures r.Some? ==> r.value < |pairs| && !PairMatches(pairs[r.value])
    ensures r.Some? ==> forall j | 0 <= j < r.value :: PairMatches(pairs[j])
    decreases |pairs|
  {
    if |pairs| == 0 then None
    else if !PairMatches(pairs[0]) then Some(0)
    else
      assert forall i | 0 <= i < |pairs[1..]| :: pairs[1..][i] == pairs[i + 1];
      match FirstMismatch(pairs[1..])
      case None => None
      case Some(k) => Some(k + 1)
  }

  /**
   `compare_pairs` (lib/pig-spec/pig_unit_core.rb:81-90): succeeds silently when
   every pair matches; otherwise reports the first pair that does not, with
   the expected and actual lines taken from the slots `roles` names.
   */
  function ComparePairs(file: string, pairs: seq<Pair>, roles: Roles): (r: Check)
    ensures r.ok <==> forall i | 0 <= i < |pairs| :: PairMatches(pairs[i])
    ensures r.ok ==> r.err == []
    ensures !r.ok ==>
      && FirstMismatch(pairs).Some?
      && r.err == MismatchReport(file, Element(pairs[FirstMismatch(pairs).value], roles.expected),
                                       Element(pairs[FirstMismatch(pairs).value], roles.actual))
    decreases |pairs|
  {
    if |pairs| == 0 then Check(true, [])
    else if !PairMatches(pairs[0]) then
      Check(false, MismatchReport(file, Element(pairs[0], roles.expected), Element(pairs[0], roles.actual)))
    else
      var rest := ComparePairs(file, pairs[1..], roles);
      assert forall i | 0 <= i < |pairs[1..]| :: pairs[1..][i] == pairs[i + 1];
      rest
  }

  /**
   Position `i` is where the two line sequences first differ: below the longer
   length, with an absent line differing from every present one.
   */
  predicate FirstDifference(expected: seq<string>, actual: seq<string>, i: nat)
  {
    && (i < |expected| || i < |actual|)
    && At(expected, i) != At(actual, i)
    && forall j | 0 <= j < i :: At(expected, j) == At(actual, j)
  }

  /** A zipped pair matches exactly when both arrays hold the same line at its position. */
  lemma ZipMatches(xs: seq<string>, ys: seq<string>, i: nat)
    requires i < |xs|
    ensures PairMatches(Zip(xs, ys)[i]) <==> At(xs, i) == At(ys, i)
    ensures Element(Zip(xs, ys)[i], 0) == Show(At(xs, i))
    ensures Element(Zip(xs, ys)[i], 1) == Show(At(ys, i))
  {
  }

  /** The pass over `expected.zip(actual)` succeeds exactly when `expected` is a prefix of `actual`. */
  lemma ForwardPass(file: string, expected: seq<string>, actual: seq<string>)
    ensures ComparePairs(file, Zip(expected, actual), ExpectedFirst).ok <==>
            |expected| <= |actual| && expected == actual[..|expected|]
    ensures !ComparePairs(file, Zip(expected, actual), ExpectedFirst).ok ==>
            exists i :: FirstDifference(expected, actual, i) &&
              ComparePairs(file, Zip(expected, actual), ExpectedFirst).err ==
                MismatchReport(file, Show(At(expected, i)), Show(At(actual, i)))
  {
    var pairs := Zip(expected, actual);
    var c := ComparePairs(file, pairs, ExpectedFirst);
    if c.ok {
      if |expected| > 0 {
        ZipMatches(expected, actual, |expected| - 1);
      }
      forall i | 0 <= i < |expected| ensures expected[i] == actual[i] {
        ZipMatches(expected, actual, i);
      }
    } else {
      var i := FirstMismatch(pairs).value;
      ZipMatches(expected, actual, i);
      forall j | 0 <= j < i ensures At(expected, j) == At(actual, j) {
        ZipMatches(expected, actual, j);
      }
      assert FirstDifference(expected, actual, i);
    }
  }

  /**
   Once `expected` is a prefix of `actual`, the pass over `actual.zip(expected)`
   succeeds exactly when the two are equal, and otherwise reports the first
   extra actual line against an empty expected line.
   */
  lemma BackwardPass(file: string, expected: seq<string>, actual: seq<string>)
    requires |expected| <= |actual| && expected == actual[..|expected|]
    ensures ComparePairs(file, Zip(actual, expected), ActualFirst).ok <==> expected == actual
    ensures !ComparePairs(file, Zip(actual, expected), ActualFirst).ok ==>
            exists i :: FirstDifference(expected, actual, i) &&
              ComparePairs(file, Zip(actual, expected), ActualFirst).err ==
                MismatchReport(file, Show(At(expected, i)), Show(At(actual, i)))
  {
    var pairs := Zip(actual, expected);
    var c := ComparePairs(file, pairs, ActualFirst);
    if c.ok {
      if |actual| > 0 {
        ZipMatches(actual, expected, |actual| - 1);
      }
    } else {
      var i := FirstMismatch(pairs).value;
      ZipMatches(actual, expected, i);
      forall j | 0 <= j < i ensures At(expected, j) == At(actual, j) {
        ZipMatches(actual, expected, j);
      }
      assert FirstDifference(expected, actual, i);
    }
  }

  /**
   The comparison of one file's lines (lib/pig-spec/pig_unit_core.rb:120-121):
   `expected.zip(actual)` first and, only if that finds nothing,
   `actual.zip(expected)`. It succeeds exactly when the two sequences are
   equal, and otherwise writes one report, of the first position where they
   differ, an absent line printing as empty.
   */
  function CompareLines(file: string, expected: seq<string>, actual: seq<string>): (r: Check)
    ensures r.ok <==> expected == actual
    ensures r.ok ==> r.err == []
    ensures !r.ok ==> exists i :: FirstDifference(expected, actual, i) &&
                                  r.err == MismatchReport(file, Show(At(expected, i)), Show(At(actual, i)))
  {
    ForwardPass(file, expected, actual);
    var forward := ComparePairs(file, Zip(expected, actual), ExpectedFirst);
    if !forward.ok then
      forward
    else
      BackwardPass(file, expected, actual);
      ComparePairs(file, Zip(actual, expected), ActualFirst)
  }

  /**
   `lines.sort if !order_matters` (lib/pig-spec/pig_unit_core.rb:115,118): the
   same lines the same number of times, kept in place when order matters and
   sorted when it does not.
   */
  function Arrange(lines: seq<string>, orderMatters: bool): (r: seq<string>)
    ensures multiset(r) == multiset(lines)
    ensures orderMatters ==> r == lines
    ensures !orderMatters ==> Sorted(r)
  {
    if orderMatters then lines else Sort(lines)
  }

  /**
   Reference meaning of a match: the same lines in the same order, or, when
   order does not matter, the same lines the same number of times.
   */
  predicate FileMatches(expectedContent: string, actualContent: string, orderMatters: bool)
  {
    var expected := SplitLines(expectedContent);
    var actual := SplitLines(actualContent);
    if orderMatters then expected == actual else multiset(expected) == multiset(actual)
  }

  /**
   The check of one expected file (lib/pig-spec/pig_unit_core.rb:114-121):
   split both contents into lines, sort them when order does not matter, and
   compare. It succeeds exactly when the file matches; otherwise it writes one
   header-expected-actual triple for the first differing position of the
   (possibly sorted) lines.
   */
  function FileCheck(file: string, expectedContent: string, actualContent: string, orderMatters: bool): (r: Check)
    ensures r.ok <==> FileMatches(expectedContent, actualContent, orderMatters)
    ensures r.ok ==> r.err == []
    ensures !r.ok ==> |r.err| == 3 && r.err[0] == MismatchHeader(file)
    ensures !r.ok ==> exists i ::
      && FirstDifference(Arrange(SplitLines(expectedContent), orderMatters),
                         Arrange(SplitLines(actualContent), orderMatters), i)
      && r.err == MismatchReport(file, Show(At(Arrange(SplitLines(expectedContent), orderMatters), i)),
                                       Show(At(Arrange(SplitLines(actualContent), orderMatters), i)))
  {
    var actual := Arrange(SplitLines(actualContent), orderMatters);
    var expected := Arrange(SplitLines(expectedContent), orderMatters);
    SortEqualIffSameMultiset(SplitLines(expectedContent), SplitLines(actualContent));
    CompareLines(file, expected, actual)
  }

  /** Every expected file name is present among the files read. */
  predicate FilesPresent(ps: seq<(string, string)>, files: map<string, string>)
  {
    forall i | 0 <= i < |ps| :: ps[i].0 in files
  }

  /** The expected files that do not match, as (name, expected content) pairs in `Hash` order. */
  function FailingPairs(ps: seq<(string, string)>, files: map<string, string>, orderMatters: bool): (r: seq<(string, string)>)
    requires FilesPresent(ps, files)
    ensures |r| <= |ps|
    ensures FilesPresent(r, files)
    decreases |ps|
  {
    if |ps| == 0 then []
    else
      var rest := FailingPairs(ps[1..], files, orderMatters);
      if FileMatches(ps[0].1, files[ps[0].0], orderMatters) then rest else [ps[0]] + rest
  }

  /** Every file listed as failing is an expected file that does not match. */
  lemma {:induction false} FailingPairsFail(ps: seq<(string, string)>, files: map<string, string>, orderMatters: bool)
    requires FilesPresent(ps, files)
    ensures forall k | 0 <= k < |FailingPairs(ps, files, orderMatters)| ::
      && FailingPairs(ps, files, orderMatters)[k] in ps
      && !FileMatches(FailingPairs(ps, files, orderMatters)[k].1,
                      files[FailingPairs(ps, files, orderMatters)[k].0], orderMatters)
    decreases |ps|
  {
    if |ps| > 0 {
      assert forall i | 0 <= i < |ps[1..]| :: ps[1..][i] == ps[i + 1];
      FailingPairsFail(ps[1..], files, orderMatters);
    }
  }

  /** One step of the list of failing files: the first file is listed in front exactly when it fails. */
  lemma FailingPairsStep(ps: seq<(string, string)>, files: map<string, string>, orderMatters: bool)
    requires FilesPresent(ps, files) && |ps| > 0
    ensures FilesPresent(ps[1..], files)
    ensures FileMatches(ps[0].1, files[ps[0].0], orderMatters) ==>
            FailingPairs(ps, files, orderMatters) == FailingPairs(ps[1..], files, orderMatters)
    ensures !FileMatches(ps[0].1, files[ps[0].0], orderMatters) ==>
            FailingPairs(ps, files, orderMatters) == [ps[0]] + FailingPairs(ps[1..], files, orderMatters)
    ensures !FileMatches(ps[0].1, files[ps[0].0], orderMatters) ==> ps[0] in FailingPairs(ps, files, orderMatters)
    ensures forall p | p in FailingPairs(ps[1..], files, orderMatters) :: p in FailingPairs(ps, files, orderMatters)
  {
    assert forall j | 0 <= j < |ps[1..]| :: ps[1..][j] == ps[j + 1];
  }

  /** An expected file that does not match is listed as failing. */
  lemma {:induction false} FailingPairsListed(ps: seq<(string, string)>, files: map<string, string>, orderMatters: bool,
                                              p: (string, string))
    requires FilesPresent(ps, files) && p in ps && p.0 in files
    requires !FileMatches(p.1, files[p.0], orderMatters)
    ensures p in FailingPairs(ps, files, orderMatters)
    decreases |ps|
  {
    FailingPairsStep(ps, files, orderMatters);
    if p != ps[0] {
      assert p in ps[1..] by {
        var i :| 0 <= i < |ps| && ps[i] == p;
        assert ps[1..][i - 1] == p;
      }
      FailingPairsListed(ps[1..], files, orderMatters, p);
    }
  }

  /**
   Every expected file that does not match is listed as failing, so the list
   is empty exactly when every file matches.
   */
  lemma FailingPairsComplete(ps: seq<(string, string)>, files: map<string, string>, orderMatters: bool)
    requires FilesPresent(ps, files)
    ensures forall i | 0 <= i < |ps| ::
      !FileMatches(ps[i].1, files[ps[i].0], orderMatters) ==> ps[i] in FailingPairs(ps, files, orderMatters)
    ensures FailingPairs(ps, files, orderMatters) == [] <==>
      forall i | 0 <= i < |ps| :: FileMatches(ps[i].1, files[ps[i].0], orderMatters)
  {
    forall i | 0 <= i < |ps| && !FileMatches(ps[i].1, files[ps[i].0], orderMatters)
      ensures ps[i] in FailingPairs(ps, files, orderMatters)
    {
      FailingPairsListed(ps, files, orderMatters, ps[i]);
    }
    FailingPairsFail(ps, files, orderMatters);
  }

  /**
   Appending the log of the remaining files to the log of one file keeps one
   three-line report per failing file, each header at a multiple of three.
   */
  lemma LogOfStep(first: Check, rest: seq<string>, file: (string, string), failing: seq<(string, string)>)
    requires first.ok ==> first.err == []
    requires !first.ok ==> |first.err| == 3 && first.err[0] == MismatchHeader(file.0)
    requires |rest| == 3 * |failing|
    requires forall k | 0 <= k < |failing| :: rest[3 * k] == MismatchHeader(failing[k].0)
    ensures |first.err + rest| == 3 * |if first.ok then failing else [file] + failing|
    ensures forall k | 0 <= k < |if first.ok then failing else [file] + failing| ::
              (first.err + rest)[3 * k] == MismatchHeader((if first.ok then failing else [file] + failing)[k].0)
  {
    var all := if first.ok then failing else [file] + failing;
    forall k | 0 <= k < |all| ensures (first.err + rest)[3 * k] == MismatchHeader(all[k].0) {
      if first.ok {
        assert first.err + rest == rest;
      } else if k > 0 {
        assert (first.err + rest)[3 * k] == rest[3 * (k - 1)];
        assert all[k] == failing[k - 1];
      }
    }
  }

  lemma AllMatchStep(ps: seq<(string, string)>, files: map<string, string>, orderMatters: bool)
    requires FilesPresent(ps, files) && |ps| > 0
    ensures FilesPresent(ps[1..], files)
    ensures (forall i | 0 <= i < |ps| :: FileMatches(ps[i].1, files[ps[i].0], orderMatters)) <==>
      && FileMatches(ps[0].1, files[ps[0].0], orderMatters)
      && forall i | 0 <= i < |ps[1..]| :: FileMatches(ps[1..][i].1, files[ps[1..][i].0], orderMatters)
  {
    assert forall i | 0 <= i < |ps[1..]| :: ps[1..][i] == ps[i + 1];
  }

  /**
   The loop over the expected files (lib/pig-spec/pig_unit_core.rb:109-125): a
   failing file does not stop the later ones being checked. The result holds
   exactly when every file matches, and the error stream gets one three-line
   report per failing file, in `Hash` order, each headed by its file's name.
   */
  function CompareFiles(ps: seq<(string, string)>, files: map<string, string>, orderMatters: bool): (r: Check)
    requires FilesPresent(ps, files)
    ensures r.ok <==> forall i | 0 <= i < |ps| :: FileMatches(ps[i].1, files[ps[i].0], orderMatters)
    ensures |r.err| == 3 * |FailingPairs(ps, files, orderMatters)|
    ensures forall k | 0 <= k < |FailingPairs(ps, files, orderMatters)| ::
              r.err[3 * k] == MismatchHeader(FailingPairs(ps, files, orderMatters)[k].0)
    decreases |ps|
  {
    if |ps| == 0 then Check(true, [])
    else
      var first := FileCheck(ps[0].0, ps[0].1, files[ps[0].0], orderMatters);
      var rest := CompareFiles(ps[1..], files, orderMatters);
      AllMatchStep(ps, files, orderMatters);
      LogOfStep(first, rest.err, ps[0], FailingPairs(ps[1..], files, orderMatters));
      Check(first.ok && rest.ok, first.err + rest.err)
  }

  /** One step of the loop: the first file's check, then the rest. */
  lemma CompareFilesStep(ps: seq<(string, string)>, files: map<string, string>, orderMatters: bool)
    requires FilesPresent(ps, files) && |ps| > 0
    ensures FilesPresent(ps[1..], files)
    ensures CompareFiles(ps, files, orderMatters).err ==
            FileCheck(ps[0].0, ps[0].1, files[ps[0].0], orderMatters).err + CompareFiles(ps[1..], files, orderMatters).err
    ensures FailingPairs(ps, files, orderMatters) ==
            if FileCheck(ps[0].0, ps[0].1, files[ps[0].0], orderMatters).ok then FailingPairs(ps[1..], files, orderMatters)
            else [ps[0]] + FailingPairs(ps[1..], files, orderMatters)
    ensures !FileCheck(ps[0].0, ps[0].1, files[ps[0].0], orderMatters).ok ==>
            |FileCheck(ps[0].0, ps[0].1, files[ps[0].0], orderMatters).err| == 3
    ensures FileCheck(ps[0].0, ps[0].1, files[ps[0].0], orderMatters).ok ==>
            FileCheck(ps[0].0, ps[0].1, files[ps[0].0], orderMatters).err == []
  {
  }

  /**
   A log of three-line blocks keeps its blocks when one more block, or
   nothing, is put in front of it.
   */
  lemma {:induction false} BlocksStep(front: seq<string>, rest: seq<string>, blocks: seq<seq<string>>, all: seq<seq<string>>)
    requires front == [] || |front| == 3
    requires |rest| == 3 * |blocks|
    requires forall k | 0 <= k < |blocks| :: rest[3 * k .. 3 * k + 3] == blocks[k]
    requires all == if front == [] then blocks else [front] + blocks
    ensures forall k | 0 <= k < |all| :: (front + rest)[3 * k .. 3 * k + 3] == all[k]
  {
    forall k | 0 <= k < |all| ensures (front + rest)[3 * k .. 3 * k + 3] == all[k] {
      if front == [] {
        assert front + rest == rest;
      } else if k > 0 {
        assert (front + rest)[3..] == rest;
        assert (front + rest)[3 * k .. 3 * k + 3] == (front + rest)[3..][3 * (k - 1) .. 3 * (k - 1) + 3];
      }
    }
  }

  /** The report `FileCheck` writes for each of the given files, in order. */
  function Reports(fs: seq<(string, string)>, files: map<string, string>, orderMatters: bool): (r: seq<seq<string>>)
    requires FilesPresent(fs, files)
    ensures |r| == |fs|
    decreases |fs|
  {
    if |fs| == 0 then []
    else
      assert FilesPresent(fs[1..], files) by {
        assert forall i | 0 <= i < |fs[1..]| :: fs[1..][i] == fs[i + 1];
      }
      [FileCheck(fs[0].0, fs[0].1, files[fs[0].0], orderMatters).err] + Reports(fs[1..], files, orderMatters)
  }

  /** The k-th report is the one `FileCheck` writes for the k-th file. */
  lemma {:induction false} ReportsAt(fs: seq<(string, string)>, files: map<string, string>, orderMatters: bool)
    requires FilesPresent(fs, files)
    ensures forall k | 0 <= k < |fs| ::
      Reports(fs, files, orderMatters)[k] == FileCheck(fs[k].0, fs[k].1, files[fs[k].0], orderMatters).err
    decreases |fs|
  {
    if |fs| > 0 {
      assert forall i | 0 <= i < |fs[1..]| :: fs[1..][i] == fs[i + 1];
      ReportsAt(fs[1..], files, orderMatters);
    }
  }

  /** The loop's error stream is the failing files' reports, one three-line block each. */
  lemma {:induction false} CompareFilesBlocks(ps: seq<(string, string)>, files: map<string, string>, orderMatters: bool)
    requires FilesPresent(ps, files)
    ensures forall k | 0 <= k < |FailingPairs(ps, files, orderMatters)| ::
      CompareFiles(ps, files, orderMatters).err[3 * k .. 3 * k + 3] ==
        Reports(FailingPairs(ps, files, orderMatters), files, orderMatters)[k]
    decreases |ps|
  {
    if |ps| > 0 {
      CompareFilesStep(ps, files, orderMatters);
      CompareFilesBlocks(ps[1..], files, orderMatters);
      var first := FileCheck(ps[0].0, ps[0].1, files[ps[0].0], orderMatters);
      var tail := FailingPairs(ps[1..], files, orderMatters);
      assert Reports(FailingPairs(ps, files, orderMatters), files, orderMatters) ==
             if first.err == [] then Reports(tail, files, orderMatters) else [first.err] + Reports(tail, files, orderMatters);
      BlocksStep(first.err, CompareFiles(ps[1..], files, orderMatters).err,
                 Reports(tail, files, orderMatters), Reports(FailingPairs(ps, files, orderMatters), files, orderMatters));
    }
  }

  /**
   The k-th three-line block of the loop's error stream is exactly the report
   `FileCheck` writes for the k-th failing file.
   */
  lemma CompareFilesReports(ps: seq<(string, string)>, files: map<string, string>, orderMatters: bool)
    requires FilesPresent(ps, files)
    ensures forall k | 0 <= k < |FailingPairs(ps, files, orderMatters)| ::
      CompareFiles(ps, files, orderMatters).err[3 * k .. 3 * k + 3] ==
        FileCheck(FailingPairs(ps, files, orderMatters)[k].0, FailingPairs(ps, files, orderMatters)[k].1,
                  files[FailingPairs(ps, files, orderMatters)[k].0], orderMatters).err
  {
    CompareFilesBlocks(ps, files, orderMatters);
    ReportsAt(FailingPairs(ps, files, orderMatters), files, orderMatters);
  }

  /** The loop writes nothing to the error stream exactly when it passes. */
  lemma CompareFilesSilentIffOk(ps: seq<(string, string)>, files: map<string, string>, orderMatters: bool)
    requires FilesPresent(ps, files)
    ensures CompareFiles(ps, files, orderMatters).ok <==> CompareFiles(ps, files, orderMatters).err == []
  {
    FailingPairsComplete(ps, files, orderMatters);
  }

  /**
   `err` is the failing files' reports and nothing else: one three-line block
   per failing file, in `Hash` order, the k-th headed by the k-th failing
   file's name and equal to the report that file's check writes.
   */
  predicate ReportsFailures(err: seq<string>, ps: seq<(string, string)>, files: map<string, string>, orderMatters: bool)
    requires FilesPresent(ps, files)
  {
    var failing := FailingPairs(ps, files, orderMatters);
    && |err| == 3 * |failing|
    && (forall k | 0 <= k < |failing| :: err[3 * k] == MismatchHeader(failing[k].0))
    && (forall k | 0 <= k < |failing| ::
          err[3 * k .. 3 * k + 3] == FileCheck(failing[k].0, failing[k].1, files[failing[k].0], orderMatters).err)
  }

  /** The loop's error stream is the failing files' reports, and it is empty exactly when the loop passes. */
  lemma CompareFilesLog(ps: seq<(string, string)>, files: map<string, string>, orderMatters: bool)
    requires FilesPresent(ps, files)
    ensures ReportsFailures(CompareFiles(ps, files, orderMatters).err, ps, files, orderMatters)
    ensures CompareFiles(ps, files, orderMatters).ok <==> CompareFiles(ps, files, orderMatters).err == []
  {
    CompareFilesReports(ps, files, orderMatters);
    CompareFilesSilentIffOk(ps, files, orderMatters);
  }

  /** Whether verification passed, and the lines written to standard output and to the error stream. */
  datatype Verification = Verification(passed: bool, out: seq<string>, err: seq<string>)

  /** Every guard lets the check through, so the expected files are read. */
  predicate ReadsFiles(outputFiles: Value, exitCode: int)
  {
    outputFiles.Hash? && |outputFiles.pairs| > 0 && exitCode == 0
  }

  /**
   `verify_output` (lib/pig-spec/pig_unit_core.rb:92-129). The banner is always
   written first. Then, in this order, an expected output that is not a
   `Hash`, an empty one, and a non-zero exit code each fail with their own
   single diagnostic. Otherwise every expected file is checked; verification
   passes exactly when all of them match, with one report per failing file.
   */
  function VerifyOutput(orderMatters: bool, outputFiles: Value, exitCode: int, files: map<string, string>): (r: Verification)
    requires ReadsFiles(outputFiles, exitCode) ==> FilesPresent(outputFiles.pairs, files)
    ensures r.out == Banner
    ensures r.passed <==>
      && ReadsFiles(outputFiles, exitCode)
      && forall i | 0 <= i < |outputFiles.pairs| ::
           FileMatches(outputFiles.pairs[i].1, files[outputFiles.pairs[i].0], orderMatters)
    ensures outputFiles.Other? ==> r.err == [UnexpectedOutputMessage(outputFiles.className)]
    ensures outputFiles.Hash? && |outputFiles.pairs| == 0 ==> r.err == [NoOutputMessage]
    ensures outputFiles.Hash? && |outputFiles.pairs| > 0 && exitCode != 0 ==> r.err == [ExitCodeMessage(exitCode)]
    ensures ReadsFiles(outputFiles, exitCode) ==> (r.passed <==> r.err == [])
    ensures ReadsFiles(outputFiles, exitCode) ==> ReportsFailures(r.err, outputFiles.pairs, files, orderMatters)
  {
    match outputFiles
    case Other(className) =>
      Verification(false, Banner, [UnexpectedOutputMessage(className)])
    case Hash(ps) =>
      if |ps| == 0 then
        Verification(false, Banner, [NoOutputMessage])
      else if exitCode != 0 then
        Verification(false, Banner, [ExitCodeMessage(exitCode)])
      else
        CompareFilesLog(ps, files, orderMatters);
        var c := CompareFiles(ps, files, orderMatters);
        Verification(c.ok, Banner, c.err)
  }

  /** A guard that fails decides the outcome without reading any file. */
  lemma GuardsReadNoFiles(orderMatters: bool, outputFiles: Value, exitCode: int,
                          files1: map<string, string>, files2: map<string, string>)
    requires !ReadsFiles(outputFiles, exitCode)
    ensures VerifyOutput(orderMatters, outputFiles, exitCode, files1) ==
            VerifyOutput(orderMatters, outputFiles, exitCode, files2)
  {
  }

  /** Only the lines count: newlines at the end of the produced file change nothing. */
  lemma TrailingNewlinesDoNotMatter(file: string, expectedContent: string, actualContent: string,
                                    k: nat, orderMatters: bool)
    ensures FileCheck(file, expectedContent, actualContent + Newlines(k), orderMatters) ==
            FileCheck(file, expectedContent, actualContent, orderMatters)
  {
    TrailingNewlinesIgnored(actualContent, k);
  }

  /** A file passing with order significant also passes with order ignored. */
  lemma OrderedMatchImpliesUnordered(expectedContent: string, actualContent: string)
    requires FileMatches(expectedContent, actualContent, true)
    ensures FileMatches(expectedContent, actualContent, false)
  {
  }

  /**
   One line more in the produced file than expected: the report names an empty
   expected line and the extra actual line (spec/pig-spec/pig_unit_core_spec.rb:298-310).
   */
  lemma ExtraActualLine(file: string, lines: seq<string>, extra: string)
    ensures CompareLines(file, lines, lines + [extra]) == Check(false, MismatchReport(file, "", extra))
  {
    var actual := lines + [extra];
    var r := CompareLines(file, lines, actual);
    assert |lines| != |actual|;
    var i: nat :| FirstDifference(lines, actual, i) && r.err == MismatchReport(file, Show(At(lines, i)), Show(At(actual, i)));
    assert forall j | 0 <= j < |lines| :: At(lines, j) == At(actual, j);
    assert i == |lines| && At(lines, i) == None && At(actual, i) == Some(extra);
  }

  /**
   One line more expected than produced: the report names the extra expected
   line and an empty actual line (spec/pig-spec/pig_unit_core_spec.rb:312-324).
   */
  lemma ExtraExpectedLine(file: string, lines: seq<string>, extra: string)
    ensures CompareLines(file, lines + [extra], lines) == Check(false, MismatchReport(file, extra, ""))
  {
    var expected := lines + [extra];
    var r := CompareLines(file, expected, lines);
    assert |lines| != |expected|;
    var i: nat :| FirstDifference(expected, lines, i) && r.err == MismatchReport(file, Show(At(expected, i)), Show(At(lines, i)));
    assert forall j | 0 <= j < |lines| :: At(expected, j) == At(lines, j);
    assert i == |lines| && At(expected, i) == Some(extra) && At(lines, i) == None;
  }
}
