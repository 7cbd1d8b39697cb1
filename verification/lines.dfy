/**
 Python's `str.splitlines()`, which turns the captured standard output of
 `systemctl list-units` into the lines the parser reads.
 */
module Lines {

  /** The line boundaries `str.splitlines()` recognises. `"\r\n"` counts
      as one boundary. */
  predicate IsLineBreak(c: char) {
    || c == '\n'
    || c == '\r'
    || c == '\U{0B}'
    || c == '\U{0C}'
    || ('\U{1C}' <= c <= '\U{1E}')
    || c == '\U{85}'
    || c == '\U{2028}'
    || c == '\U{2029}'
  }

  predicate NoLineBreak(s: string) {
    forall i :: 0 <= i < |s| ==> !IsLineBreak(s[i])
  }

  /** Index of the first line boundary in `s`, or `|s|` when there is none. */
  function LineEnd(s: string): (n: nat)
    ensures n <= |s|
    ensures NoLineBreak(s[..n])
    ensures n < |s| ==> IsLineBreak(s[n])
  {
    if |s| == 0 || IsLineBreak(s[0]) then 0
    else
      var n := 1 + LineEnd(s[1..]);
      assert forall i :: 0 < i < n ==> s[..n][i] == s[1..][..n - 1][i - 1];
      n
  }

  /** Width of the boundary at index `n`: two for `"\r\n"`, one otherwise. */
  function BreakWidth(s: string, n: nat): nat
    requires n < |s|
  {
    if s[n] == '\r' && n + 1 < |s| && s[n + 1] == '\n' then 2 else 1
  }

  /** `s.splitlines()`: no empty item is produced for a final boundary,
      and an empty string yields no lines at all. */
  function SplitLines(s: string): (lines: seq<string>)
    ensures forall i :: 0 <= i < |lines| ==> NoLineBreak(lines[i])
    decreases |s|
  {
    if |s| == 0 then []
    else
      var n := LineEnd(s);
      if n == |s| then [s]
      else
        var rest := SplitLines(s[n + BreakWidth(s, n)..]);
        var lines := [s[..n]] + rest;
        assert forall i :: 0 < i < |lines| ==> lines[i] == rest[i - 1];
        lines
  }

  /** The text `systemctl` writes: every line followed by `"\n"`. */
  function Terminated(lines: seq<string>): string {
    if |lines| == 0 then "" else lines[0] + "\n" + Terminated(lines[1..])
  }

  lemma {:induction false} LineEndAt(line: string, rest: string)
    requires NoLineBreak(line)
    ensures LineEnd(line + "\n" + rest) == |line|
    decreases |line|
  {
    if |line| > 0 {
      assert (line + "\n" + rest)[1..] == line[1..] + "\n" + rest;
      LineEndAt(line[1..], rest);
    } else {
      assert line + "\n" + rest == "\n" + rest;
    }
  }

  /** Splitting newline-terminated text gives back its lines, so long as
      no line carries a boundary character of its own. */
  lemma {:induction false} SplitLinesTerminated(lines: seq<string>)
    requires forall i :: 0 <= i < |lines| ==> NoLineBreak(lines[i])
    ensures SplitLines(Terminated(lines)) == lines
    decreases |lines|
  {
    if |lines| > 0 {
      var line := lines[0];
      var rest := Terminated(lines[1..]);
      var s := line + "\n" + rest;
      assert Terminated(lines) == s;
      LineEndAt(line, rest);
      assert s[|line|] == '\n';
      assert BreakWidth(s, |line|) == 1;
      assert s[..|line|] == line;
      assert s[|line| + 1..] == rest;
      SplitLinesTerminated(lines[1..]);
      assert lines == [line] + lines[1..];
    }
  }

  /** Text without any boundary is a single line, or no line when empty. */
  lemma {:induction false} SplitLinesSingle(s: string)
    requires NoLineBreak(s)
    ensures SplitLines(s) == if |s| == 0 then [] else [s]
  {
  }
}
