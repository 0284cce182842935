/**
 The command line the harness runs: `build_pig_script_params` encodes the
 parameter `Hash` as `-p name=value` flags and `build_cmd_line` puts the fixed
 `pig` prefix, the flags and the script name together.
 */
module PigParams {
  import opened RubyCore

  /** `PIG_CMD_PREFIX`. */
  const PigCmdPrefix: string := "pig"

  /** The one diagnostic of the encoder, for an argument that is not a `Hash`. */
  function UnexpectedParamsMessage(className: string): string
  {
    "Params had unexpected class: " + className
  }

  /** A string together with the lines it wrote to the error stream. */
  datatype Encoded = Encoded(text: string, err: seq<string>)

  /** The flag for one parameter. */
  function Token(p: (string, string)): (t: string)
    ensures |t| >= 3 && t[..3] == "-p "
  {
    "-p " + p.0 + "=" + p.1
  }

  /** The flags of all parameters, in the `Hash`'s insertion order. */
  function Tokens(ps: seq<(string, string)>): (ts: seq<string>)
    ensures |ts| == |ps|
    ensures forall i | 0 <= i < |ps| :: ts[i] == Token(ps[i])
  {
    if |ps| == 0 then [] else [Token(ps[0])] + Tokens(ps[1..])
  }

  /** Reference definition: the words with one space between each two, none around them. */
  function JoinSpace(ws: seq<string>): string
  {
    if |ws| == 0 then ""
    else if |ws| == 1 then ws[0]
    else ws[0] + " " + JoinSpace(ws[1..])
  }

  /**
   The block given to `reduce` (lib/pig-spec/pig_unit_core.rb:38): the
   accumulator is kept as it is, then one separating space unless it is empty,
   then the flag.
   */
  function AppendFlag(acc: string, p: (string, string)): (r: string)
    ensures |r| == |acc| + (if acc == "" then 0 else 1) + |Token(p)|
    ensures r[..|acc|] == acc
    ensures acc != "" ==> r[|acc|] == ' '
    ensures r[|r| - |Token(p)|..] == Token(p)
  {
    acc + (if acc == "" then "" else " ") + Token(p)
  }

  /**
   `ps.reduce(acc) { ... }` (lib/pig-spec/pig_unit_core.rb:37-39): folds the
   flags into the accumulator from the left. The fold only ever extends its
   accumulator, and is non-empty once there is a flag.
   */
  function Reduce(acc: string, ps: seq<(string, string)>): (r: string)
    ensures |r| >= |acc| && r[..|acc|] == acc
    ensures |ps| > 0 ==> r != ""
    decreases |ps|
  {
    if |ps| == 0 then acc else Reduce(AppendFlag(acc, ps[0]), ps[1..])
  }

  lemma JoinSpaceEmpty(ws: seq<string>)
    requires forall i | 0 <= i < |ws| :: |ws[i]| > 0
    ensures JoinSpace(ws) == "" <==> |ws| == 0
  {
    if |ws| > 1 {
      assert |JoinSpace(ws)| >= |ws[0]|;
    }
  }

  /** The left fold `reduce` computes is the space-joined list of flags after the accumulator. */
  lemma {:induction false} ReduceIsJoin(acc: string, ps: seq<(string, string)>)
    ensures Reduce(acc, ps) ==
      if |ps| == 0 then acc
      else if acc == "" then JoinSpace(Tokens(ps))
      else acc + " " + JoinSpace(Tokens(ps))
    decreases |ps|
  {
    if |ps| > 0 {
      var next := AppendFlag(acc, ps[0]);
      ReduceIsJoin(next, ps[1..]);
      assert Tokens(ps) == [Token(ps[0])] + Tokens(ps[1..]);
      assert next != "";
      if |ps| > 1 {
        assert Tokens(ps)[1..] == Tokens(ps[1..]);
      }
    }
  }

  /**
   `build_pig_script_params` (lib/pig-spec/pig_unit_core.rb:31-40): for a `Hash`,
   the flags of its entries in insertion order joined by single spaces, with no
   diagnostic; for anything else, the empty string and one diagnostic naming
   the class. The text is empty exactly when there is no flag to give.
   */
  function BuildPigScriptParams(params: Value): (r: Encoded)
    ensures params.Hash? ==> r.text == JoinSpace(Tokens(params.pairs)) && r.err == []
    ensures params.Other? ==> r.text == "" && r.err == [UnexpectedParamsMessage(params.className)]
    ensures r.text == "" <==> params.Other? || |params.pairs| == 0
  {
    match params
    case Other(className) =>
      Encoded("", [UnexpectedParamsMessage(className)])
    case Hash(ps) =>
      ReduceIsJoin("", ps);
      JoinSpaceEmpty(Tokens(ps));
      Encoded(Reduce("", ps), [])
  }

  /**
   `build_cmd_line` (lib/pig-spec/pig_unit_core.rb:42-46): `pig`, a space, the
   flags followed by one space if there are any, then the script name. The
   binary argument is accepted and never used.
   */
  function BuildCmdLine(pigBinary: string, pigScript: string, params: Value): (r: Encoded)
    ensures params.Hash? && |params.pairs| > 0 ==>
      r.text == PigCmdPrefix + " " + JoinSpace(Tokens(params.pairs)) + " " + pigScript
    ensures params.Other? || |params.pairs| == 0 ==> r.text == PigCmdPrefix + " " + pigScript
    ensures r.err == if params.Other? then [UnexpectedParamsMessage(params.className)] else []
  {
    var flags := BuildPigScriptParams(params);
    var spaced := if flags.text == "" then "" else flags.text + " ";
    Encoded(PigCmdPrefix + " " + spaced + pigScript, flags.err)
  }

  /** The command line does not depend on the binary argument. */
  lemma CmdLineIgnoresBinary(b1: string, b2: string, pigScript: string, params: Value)
    ensures BuildCmdLine(b1, pigScript, params) == BuildCmdLine(b2, pigScript, params)
  {
  }

  /**
   The tests at spec/pig-spec/pig_unit_core_spec.rb:159-167 expect the prefix
   to be followed directly by the binary and ` -x local`. The code never gives
   such a line for a binary that does not start with a space: the fourth
   character of its line is always the space after `pig`.
   */
  lemma CmdLineNeverEmbedsBinary(pigBinary: string, pigScript: string, params: Value, rest: string)
    requires |pigBinary| > 0 && pigBinary[0] != ' '
    ensures BuildCmdLine(pigBinary, pigScript, params).text != PigCmdPrefix + pigBinary + rest
  {
    var line := BuildCmdLine(pigBinary, pigScript, params).text;
    assert line[3] == ' ';
    assert (PigCmdPrefix + pigBinary + rest)[3] == pigBinary[0];
  }

  /** The example at spec/pig-spec/pig_unit_core_spec.rb:124-128. */
  lemma TwoParamsExample()
    ensures BuildPigScriptParams(Hash([("foo", "123"), ("bAr", "234")])).text == "-p foo=123 -p bAr=234"
  {
    var ps := [("foo", "123"), ("bAr", "234")];
    assert Token(ps[0]) == "-p foo=123";
    assert Token(ps[1]) == "-p bAr=234";
    assert Tokens(ps) == ["-p foo=123", "-p bAr=234"];
    assert JoinSpace(["-p bAr=234"]) == "-p bAr=234";
  }
}
