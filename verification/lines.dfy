/**
 Ruby's `String#split("\n")` as the verifier uses it: cut at every newline,
 then drop every empty field at the end (but keep empty fields elsewhere).
 */
module Lines {

  predicate NoNewline(s: string)
  {
    '\n' !in s
  }

  predicate AllNoNewline(xs: seq<string>)
  {
    forall i | 0 <= i < |xs| :: NoNewline(xs[i])
  }

  /** True when the last element, if any, is not the empty string. */
  predicate NoTrailingEmpty(xs: seq<string>)
  {
    |xs| == 0 || xs[|xs| - 1] != ""
  }

  /** Puts one newline between each two consecutive lines. */
  function JoinLines(xs: seq<string>): string
  {
    if |xs| == 0 then ""
    else if |xs| == 1 then xs[0]
    else xs[0] + "\n" + JoinLines(xs[1..])
  }

  /** A string of `k` newlines. */
  function Newlines(k: nat): (r: string)
    ensures |r| == k
    ensures forall i | 0 <= i < k :: r[i] == '\n'
  {
    if k == 0 then "" else Newlines(k - 1) + "\n"
  }

  /**
   Every newline-separated field of `s`, empty ones included: always at least
   one.
   */
  function Fields(s: string): (r: seq<string>)
    ensures |r| >= 1
    decreases |s|
  {
    if |s| == 0 then [""]
    else
      var rest := Fields(s[1..]);
      if s[0] == '\n' then [""] + rest
      else [[s[0]] + rest[0]] + rest[1..]
  }

  /** No field holds a newline. */
  lemma {:induction false} FieldsHaveNoNewline(s: string)
    ensures AllNoNewline(Fields(s))
    decreases |s|
  {
    if |s| > 0 {
      var rest := Fields(s[1..]);
      FieldsHaveNoNewline(s[1..]);
      if s[0] != '\n' {
        var r := [[s[0]] + rest[0]] + rest[1..];
        assert NoNewline(rest[0]);
        assert NoNewline(r[0]);
        assert forall i | 1 <= i < |r| :: r[i] == rest[i];
      } else {
        assert forall i | 1 <= i < |[""] + rest| :: ([""] + rest)[i] == rest[i - 1];
      }
    }
  }

  /** Joining the fields with newlines gives the text back. */
  lemma {:induction false} JoinFields(s: string)
    ensures JoinLines(Fields(s)) == s
    decreases |s|
  {
    if |s| > 0 {
      var rest := Fields(s[1..]);
      JoinFields(s[1..]);
      assert s == [s[0]] + s[1..];
      if s[0] != '\n' {
        var r := [[s[0]] + rest[0]] + rest[1..];
        assert r[1..] == rest[1..];
      }
    }
  }

  /** Removes every empty string at the end of `xs`, and nothing else. */
  function DropTrailingEmpty(xs: seq<string>): (r: seq<string>)
    ensures |r| <= |xs| && r == xs[..|r|]
    ensures forall i | |r| <= i < |xs| :: xs[i] == ""
    ensures NoTrailingEmpty(r)
    decreases |xs|
  {
    if |xs| > 0 && xs[|xs| - 1] == "" then DropTrailingEmpty(xs[..|xs| - 1]) else xs
  }

  /**
   `s.split("\n")`: the fields of `s` with the trailing empty ones removed, so
   the last line is never empty.
   */
  function SplitLines(s: string): (r: seq<string>)
    ensures NoTrailingEmpty(r)
  {
    DropTrailingEmpty(Fields(s))
  }

  /** No line that `split` gives holds a newline. */
  lemma SplitLinesHaveNoNewline(s: string)
    ensures AllNoNewline(SplitLines(s))
  {
    FieldsHaveNoNewline(s);
  }

  lemma {:induction false} FieldsOfLine(a: string)
    requires NoNewline(a)
    ensures Fields(a) == [a]
    decreases |a|
  {
    if |a| > 0 {
      assert a[0] != '\n' && NoNewline(a[1..]);
      FieldsOfLine(a[1..]);
      assert [a[0]] + a[1..] == a;
    }
  }

  /** A newline after a newline-free prefix ends the first field exactly there. */
  lemma {:induction false} FieldsAfterLine(a: string, b: string)
    requires NoNewline(a)
    ensures Fields(a + "\n" + b) == [a] + Fields(b)
    decreases |a|
  {
    var s := a + "\n" + b;
    if |a| == 0 {
      assert s[0] == '\n' && s[1..] == b;
    } else {
      assert s[0] == a[0] && s[1..] == a[1..] + "\n" + b;
      FieldsAfterLine(a[1..], b);
      assert [a[0]] + a[1..] == a;
    }
  }

  /** Splitting the joined fields gives the fields back. */
  lemma {:induction false} FieldsOfJoin(xs: seq<string>)
    requires |xs| >= 1 && AllNoNewline(xs)
    ensures Fields(JoinLines(xs)) == xs
    decreases |xs|
  {
    if |xs| == 1 {
      FieldsOfLine(xs[0]);
    } else {
      assert AllNoNewline(xs[1..]) by {
        forall i | 0 <= i < |xs[1..]| ensures NoNewline(xs[1..][i]) {
          assert xs[1..][i] == xs[i + 1];
        }
      }
      FieldsOfJoin(xs[1..]);
      FieldsAfterLine(xs[0], JoinLines(xs[1..]));
      assert [xs[0]] + xs[1..] == xs;
    }
  }

  /**
   Round trip: lines without newlines whose last line is not empty are given
   back unchanged by splitting their newline-joined text.
   */
  lemma SplitOfJoin(xs: seq<string>)
    requires AllNoNewline(xs) && NoTrailingEmpty(xs)
    ensures SplitLines(JoinLines(xs)) == xs
  {
    if |xs| > 0 {
      FieldsOfJoin(xs);
    }
  }

  /** One more newline at the end adds one more (empty) field. */
  lemma {:induction false} FieldsAppendNewline(s: string)
    ensures Fields(s + "\n") == Fields(s) + [""]
    decreases |s|
  {
    var t := s + "\n";
    if |s| > 0 {
      assert t[0] == s[0] && t[1..] == s[1..] + "\n";
      FieldsAppendNewline(s[1..]);
    }
  }

  /** A trailing newline never changes the split lines. */
  lemma TrailingNewlineIgnored(s: string)
    ensures SplitLines(s + "\n") == SplitLines(s)
  {
    var f := Fields(s);
    FieldsAppendNewline(s);
    assert (f + [""])[..|f|] == f;
  }

  /**
   Two contents that differ only by how many newlines they end with split to
   the same lines.
   */
  lemma {:induction false} TrailingNewlinesIgnored(s: string, k: nat)
    ensures SplitLines(s + Newlines(k)) == SplitLines(s)
  {
    if k == 0 {
      assert s + Newlines(0) == s;
    } else {
      TrailingNewlinesIgnored(s, k - 1);
      assert s + Newlines(k) == (s + Newlines(k - 1)) + "\n";
      TrailingNewlineIgnored(s + Newlines(k - 1));
    }
  }
}
