/**
 The harness state a test invocation updates (`test_pig_script`): the
 class-wide test counter, the input directory named after it, and the
 expected output kept for `verify_output`. Writing the input files and
 running the script are not modelled; the exit code the run leaves behind is
 given as a value.
 */
module TestRun {
  import opened RubyCore
  import Decimal
  import Verify

  /** The instance variables of a harness, output streams aside. */
  datatype Harness = Harness(outputFiles: Value, inputDir: string, exitCode: int)

  /** `initialize` (lib/pig-spec/pig_unit_core.rb:9-15). */
  const Fresh: Harness := Harness(Hash([]), "", 0)

  /** The class-wide `@@test_number` together with one harness. */
  datatype Session = Session(testNumber: nat, harness: Harness)

  /** `INPUT_DIR_PREFIX`. */
  const InputDirPrefix: string := "pig_test_"

  /**
   The input directory `write_input_files` names after the test number
   (lib/pig-spec/pig_unit_core.rb:62), before it is expanded against the
   working directory: the prefix followed by the number in decimal.
   */
  function InputDirName(n: nat): (r: string)
    ensures |r| > |InputDirPrefix| && r[..|InputDirPrefix|] == InputDirPrefix
    ensures r[|InputDirPrefix|..] == Decimal.IntToString(n)
  {
    InputDirPrefix + Decimal.IntToString(n)
  }

  /** Different test numbers give different input directories. */
  lemma InputDirNamesDistinct(m: nat, n: nat)
    requires m != n
    ensures InputDirName(m) != InputDirName(n)
  {
    if InputDirName(m) == InputDirName(n) {
      Decimal.IntToStringInjective(m, n);
    }
  }

  /** What `run_script` leaves in the harness. */
  datatype RunEffects = RunEffects(exitCode: int)

  /** The arguments of one call of `test_pig_script`, and what its script run left behind. */
  datatype Call = Call(pigBinary: string, pigScript: string, inputFiles: Value,
                       outputFiles: Value, params: Value, effects: RunEffects)

  /**
   `test_pig_script` (lib/pig-spec/pig_unit_core.rb:21-29): the counter goes up
   by exactly one, the input directory is named after the new number, the
   expected output becomes the given value whatever its class, and the exit
   code is the one the script run produced.
   */
  function TestPigScript(s: Session, c: Call): (r: Session)
    ensures r.testNumber == s.testNumber + 1
    ensures r.harness.inputDir == InputDirName(r.testNumber)
    ensures r.harness.outputFiles == c.outputFiles
    ensures r.harness.exitCode == c.effects.exitCode
  {
    var counted := s.testNumber + 1;
    var written := s.harness.(inputDir := InputDirName(counted));
    var stored := written.(outputFiles := c.outputFiles);
    Session(counted, stored.(exitCode := c.effects.exitCode))
  }

  /**
   A run of consecutive invocations: the i-th one sees test number
   `start + i + 1`, so no two invocations share a number or an input
   directory, and the last invocation's expected output is what is verified.
   */
  method RunTests(start: Session, calls: seq<Call>) returns (numbers: seq<nat>, dirs: seq<string>, last: Session)
    ensures |numbers| == |calls| && |dirs| == |calls|
    ensures forall i | 0 <= i < |numbers| :: numbers[i] == start.testNumber + i + 1
    ensures forall i, j | 0 <= i < j < |numbers| :: numbers[i] < numbers[j]
    ensures forall i | 0 <= i < |dirs| :: dirs[i] == InputDirName(numbers[i])
    ensures forall i, j | 0 <= i < j < |dirs| :: dirs[i] != dirs[j]
    ensures last.testNumber == start.testNumber + |calls|
    ensures |calls| > 0 ==> last.harness.outputFiles == calls[|calls| - 1].outputFiles
    ensures |calls| == 0 ==> last == start
  {
    numbers := [];
    dirs := [];
    last := start;
    var k := 0;
    while k < |calls|
      invariant 0 <= k <= |calls|
      invariant |numbers| == k && |dirs| == k
      invariant forall i | 0 <= i < k :: numbers[i] == start.testNumber + i + 1
      invariant forall i | 0 <= i < k :: dirs[i] == InputDirName(numbers[i])
      invariant last.testNumber == start.testNumber + k
      invariant k > 0 ==> last.harness.outputFiles == calls[k - 1].outputFiles
      invariant k == 0 ==> last == start
    {
      last := TestPigScript(last, calls[k]);
      numbers := numbers + [last.testNumber];
      dirs := dirs + [last.harness.inputDir];
      k := k + 1;
    }
    forall i, j | 0 <= i < j < |dirs| ensures dirs[i] != dirs[j] {
      InputDirNamesDistinct(numbers[i], numbers[j]);
    }
  }

  /** A harness that has not run a test has nothing to verify. */
  lemma FreshHarnessHasNothingToVerify(orderMatters: bool, files: map<string, string>)
    ensures Verify.VerifyOutput(orderMatters, Fresh.outputFiles, Fresh.exitCode, files) ==
            Verify.Verification(false, Verify.Banner, [Verify.NoOutputMessage])
  {
  }
}
