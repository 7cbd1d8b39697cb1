/**
 The numbered menus of `find_service` and `check_service_details`, the
 unit-name list the latter offers, and the `FragmentPath` value that
 `find_service` shows for the chosen unit.
 */
module Menus {
  import opened Wrappers
  import opened Text
  import opened Lines
  import opened Decimal
  import opened Services
  import opened Search

  /** `[str(i) for i in range(1, n + 1)]`. */
  function NumberedChoices(n: nat): seq<string> {
    seq(n, i requires 0 <= i < n => NatToString(i + 1))
  }

  /** The numbered choices are exactly the numerals of 1 to `n`. */
  lemma NumberedChoicesIff(n: nat, c: string)
    ensures c in NumberedChoices(n) <==> exists k :: 1 <= k <= n && NatToString(k) == c
  {
    if exists k :: 1 <= k <= n && NatToString(k) == c {
      var k :| 1 <= k <= n && NatToString(k) == c;
      assert NumberedChoices(n)[k - 1] == c;
    }
    if c in NumberedChoices(n) {
      var i :| 0 <= i < n && NumberedChoices(n)[i] == c;
      assert NumberedChoices(n)[i] == NatToString(i + 1);
      assert NatToString(i + 1) == c;
    }
  }

  /** `int(choice)` for one of the numbered choices: the number it names,
      which lies between 1 and `n`. */
  function ChoiceNumber(c: string, n: nat): (k: nat)
    requires c in NumberedChoices(n)
    ensures 1 <= k <= n && NatToString(k) == c
  {
    var i :| 0 <= i < n && NumberedChoices(n)[i] == c;
    ParseNatToString(i + 1);
    ParseDecimal(c).value
  }

  /** A letter choice is never also a numbered one. */
  lemma LetterIsNotNumbered(n: nat, c: string)
    requires |c| == 1 && !IsDigit(c[0])
    ensures c !in NumberedChoices(n)
  {
    forall i | 0 <= i < n ensures NumberedChoices(n)[i] != c {
      assert IsDigit(NatToString(i + 1)[0]);
    }
  }

  /** `find_service`'s choices: a number per match, then "H". */
  function MatchChoices(n: nat): seq<string> {
    NumberedChoices(n) + ["H"]
  }

  /** `check_service_details`'s choices: a number per unit, then "H", "E". */
  function ServiceChoices(n: nat): seq<string> {
    NumberedChoices(n) + ["H", "E"]
  }

  /** Where a menu choice leads: back home, out of the program, or to the
      unit that was picked. */
  datatype Selection = Home | Exit | Picked(unit: string)

  /** `find_service` after listing `matches`: "H" returns, and the choice
      `k` picks `matches[k - 1]`, always within bounds. */
  function SelectMatch(matches: seq<Service>, choice: string): (sel: Selection)
    requires choice in MatchChoices(|matches|)
    ensures sel == Home <==> choice == "H"
    ensures sel != Home ==> exists k :: 1 <= k <= |matches| && NatToString(k) == choice
                                        && sel == Picked(matches[k - 1].unit)
  {
    LetterIsNotNumbered(|matches|, "H");
    if choice == "H" then Home
    else
      var k := ChoiceNumber(choice, |matches|);
      Picked(matches[k - 1].unit)
  }

  /** `check_service_details`: "H" returns, "E" exits, and the choice `k`
      picks `names[k - 1]`, always within bounds. */
  function SelectService(names: seq<string>, choice: string): (sel: Selection)
    requires choice in ServiceChoices(|names|)
    ensures sel == Home <==> choice == "H"
    ensures sel == Exit <==> choice == "E"
    ensures sel.Picked? ==> exists k :: 1 <= k <= |names| && NatToString(k) == choice
                                       && sel.unit == names[k - 1]
  {
    LetterIsNotNumbered(|names|, "H");
    LetterIsNotNumbered(|names|, "E");
    if choice == "H" then Home
    else if choice == "E" then Exit
    else
      var k := ChoiceNumber(choice, |names|);
      Picked(names[k - 1])
  }

  /** `line.split(None, 1)[0]`: the first field of a line that is not all
      whitespace. */
  function FirstWord(line: string): (w: string)
    requires !AllSpace(line)
    ensures IsWord(w)
  {
    WordCountZero(line);
    SplitWhitespaceCount(line, 1);
    SplitWhitespace(line, 1)[0]
  }

  /** The first word is preceded by whitespace only and ends at a word
      boundary. */
  lemma FirstWordLayout(line: string) returns (lead: string, rest: string)
    requires !AllSpace(line)
    ensures AllSpace(lead) && EndsWord(rest)
    ensures line == lead + (FirstWord(line) + rest)
  {
    WordCountZero(line);
    SplitWhitespaceCount(line, 1);
    lead, rest := SplitWhitespaceStep(line, 1);
  }

  /** Any split with at least one cut starts with the same first field. */
  lemma {:induction false} SplitFirstAgrees(s: string, m: nat, n: nat)
    requires m > 0 && n > 0
    requires |SplitWhitespace(s, m)| > 0
    ensures |SplitWhitespace(s, n)| > 0
    ensures SplitWhitespace(s, m)[0] == SplitWhitespace(s, n)[0]
    decreases |s|
  {
    if IsSpace(s[0]) {
      SplitFirstAgrees(s[1..], m, n);
    }
  }

  /** On a line that parses, the name `check_service_details` lists is the
      unit of the record `list_services` builds from the same line. */
  lemma FirstWordIsUnit(line: string)
    requires ParseLine(line).Some?
    ensures !AllSpace(line)
    ensures FirstWord(line) == ParseLine(line).value.unit
  {
    WordCountZero(line);
    SplitWhitespaceCount(line, 4);
    SplitFirstAgrees(line, 4, 1);
  }

  /** `[line.split(None, 1)[0] for line in lines if line.strip()]`. */
  function UnitNames(lines: seq<string>): (names: seq<string>)
    ensures |names| <= |lines|
    ensures forall i :: 0 <= i < |names| ==> IsWord(names[i])
  {
    if |lines| == 0 then []
    else
      var rest := UnitNames(lines[1..]);
      if Strip(lines[0]) != "" then
        var names := [FirstWord(lines[0])] + rest;
        assert forall i :: 0 < i < |names| ==> names[i] == rest[i - 1];
        names
      else rest
  }

  /** A name is listed exactly when some non-blank line starts with it. */
  lemma {:induction false} UnitNamesMembers(lines: seq<string>, name: string)
    ensures name in UnitNames(lines) <==>
              exists i :: 0 <= i < |lines| && !AllSpace(lines[i]) && FirstWord(lines[i]) == name
    decreases |lines|
  {
    if |lines| > 0 {
      UnitNamesStep(lines);
      UnitNamesMembers(lines[1..], name);
      if exists i :: 0 <= i < |lines| - 1 && !AllSpace(lines[1..][i]) && FirstWord(lines[1..][i]) == name {
        var i :| 0 <= i < |lines| - 1 && !AllSpace(lines[1..][i]) && FirstWord(lines[1..][i]) == name;
        assert lines[i + 1] == lines[1..][i];
      }
      if exists i :: 0 < i < |lines| && !AllSpace(lines[i]) && FirstWord(lines[i]) == name {
        var i :| 0 < i < |lines| && !AllSpace(lines[i]) && FirstWord(lines[i]) == name;
        assert lines[1..][i - 1] == lines[i];
      }
    }
  }

  lemma UnitNamesStep(lines: seq<string>)
    requires |lines| > 0
    ensures UnitNames(lines) == (if AllSpace(lines[0]) then [] else [FirstWord(lines[0])]) + UnitNames(lines[1..])
  {
    assert Strip(lines[0]) == "" <==> AllSpace(lines[0]);
  }

  /** One name per non-blank line, in line order: the names of two pieces of
      a listing are the names of each piece. */
  lemma {:induction false} UnitNamesAppend(a: seq<string>, b: seq<string>)
    ensures UnitNames(a + b) == UnitNames(a) + UnitNames(b)
    decreases |a|
  {
    if |a| == 0 {
      assert a + b == b;
    } else {
      assert (a + b)[0] == a[0];
      assert (a + b)[1..] == a[1..] + b;
      UnitNamesAppend(a[1..], b);
    }
  }

  /** Index of the first `c` in `s`, or `|s|` when there is none. */
  function IndexOf(s: string, c: char): (i: nat)
    ensures i <= |s|
    ensures c !in s[..i]
    ensures i < |s| ==> s[i] == c
  {
    if |s| == 0 || s[0] == c then 0
    else
      var i := 1 + IndexOf(s[1..], c);
      assert s[..i] == [s[0]] + s[1..][..i - 1];
      i
  }

  /** `t.split(c, 1)[-1]`: the text after the first `c`, or all of `t` when
      there is none. */
  function AfterFirst(t: string, c: char): (v: string)
    ensures c !in t ==> v == t
    ensures c in t ==> && |v| < |t| && v == t[|t| - |v|..]
                       && t[|t| - |v| - 1] == c && c !in t[..|t| - |v| - 1]
  {
    var i := IndexOf(t, c);
    if i == |t| then
      assert t[..i] == t;
      t
    else
      var v := t[i + 1..];
      assert |t| - |v| - 1 == i;
      v
  }

  /** Splitting `key + [c] + value` at its first `c` gives back `value`
      when `key` holds no `c`, whatever `value` holds. */
  lemma AfterFirstOfJoin(key: string, c: char, value: string)
    requires c !in key
    ensures AfterFirst(key + [c] + value, c) == value
  {
    var t := key + [c] + value;
    var i := IndexOf(t, c);
    assert t[|key|] == c;
    assert t[..|key|] == key;
    assert i == |key|;
    assert t[i + 1..] == value;
  }

  /** `stdout.strip().split('=', 1)[-1]`: the text after the first "=" of
      the stripped output, or all of it when there is no "=". */
  function FragmentValue(output: string): (v: string)
    ensures var t := Strip(output); '=' !in t ==> v == t
    ensures var t := Strip(output);
      '=' in t ==> && |v| < |t| && v == t[|t| - |v|..]
                   && t[|t| - |v| - 1] == '=' && '=' !in t[..|t| - |v| - 1]
  {
    AfterFirst(Strip(output), '=')
  }

  lemma TrimRightOfSpaces(core: string, trail: string)
    requires AllSpace(trail)
    requires |core| == 0 || !IsSpace(core[|core| - 1])
    ensures TrimRight(core + trail) == core
  {
    var s := core + trail;
    var r := TrimRight(s);
    assert s[|core|..] == trail;
    assert forall k :: |r| <= k < |s| ==> s[k] == s[|r|..][k - |r|];
    assert s[..|core|] == core;
  }

  /** Stripping text that starts with a non-space and ends in whitespace
      leaves the text before the whitespace. */
  lemma StripTrailing(core: string, trail: string)
    requires |core| > 0 && !IsSpace(core[0]) && !IsSpace(core[|core| - 1])
    requires AllSpace(trail)
    ensures Strip(core + trail) == core
  {
    assert (core + trail)[0] == core[0];
    assert TrimLeft(core + trail) == core + trail;
    TrimRightOfSpaces(core, trail);
  }

  lemma FragmentJoin(path: string)
    ensures "FragmentPath=" + path == "FragmentPath" + ['='] + path
    ensures '=' !in "FragmentPath"
  {
  }

  /** The output of `systemctl show UNIT --property=FragmentPath` is
      "FragmentPath=PATH" and a line end; the unit file shown is PATH. */
  lemma FragmentOfShowOutput(path: string, trail: string)
    requires |path| == 0 || (!IsSpace(path[0]) && !IsSpace(path[|path| - 1]))
    requires AllSpace(trail)
    ensures FragmentValue("FragmentPath=" + path + trail) == path
  {
    var core := "FragmentPath=" + path;
    assert core[0] == 'F';
    assert core[|core| - 1] == (if |path| == 0 then '=' else path[|path| - 1]);
    StripTrailing(core, trail);
    FragmentJoin(path);
    AfterFirstOfJoin("FragmentPath", '=', path);
  }

  /** What `find_service` ends in. */
  datatype FindOutcome =
    | NoMatches(keyword: string)
    | BackHome
    | Details(unit: string, commands: seq<seq<string>>, unitFile: string)

  /** The two commands `find_service` runs for the chosen unit. */
  function DetailCommands(unit: string): seq<seq<string>> {
    [["systemctl", "status", unit], ["systemctl", "show", unit, "--property=FragmentPath", "--no-pager"]]
  }

  function MatchesIn(keyword: string, listing: string): seq<Service> {
    Matching(Lower(keyword), ParseLines(SplitLines(listing)))
  }

  /** `find_service`, given the reply `Prompt.ask` returned for the keyword
      (already stripped of surrounding whitespace), the captured listing, the
      menu choice and the captured `systemctl show` output. With no match it
      returns before offering a choice; otherwise the choice picks one of
      the matches, which does match the keyword. */
  function FindService(keyword: string, listing: string, choice: string, showOutput: string): (r: FindOutcome)
    requires var m := MatchesIn(keyword, listing); |m| == 0 || choice in MatchChoices(|m|)
    ensures r.NoMatches? <==> |MatchesIn(keyword, listing)| == 0
    ensures r.NoMatches? ==> r.keyword == Lower(keyword)
    ensures r == BackHome <==> |MatchesIn(keyword, listing)| > 0 && choice == "H"
    ensures r.Details? ==>
      var m := MatchesIn(keyword, listing);
      && (exists k :: 1 <= k <= |m| && NatToString(k) == choice && r.unit == m[k - 1].unit
                     && MatchesKeyword(Lower(keyword), m[k - 1]))
      && r.commands == DetailCommands(r.unit)
      && r.unitFile == FragmentValue(showOutput)
  {
    var m := MatchesIn(keyword, listing);
    if |m| == 0 then NoMatches(Lower(keyword))
    else
      match SelectMatch(m, choice)
      case Picked(unit) =>
        var k :| 1 <= k <= |m| && NatToString(k) == choice && Picked(unit) == Picked(m[k - 1].unit);
        MatchingMembers(Lower(keyword), ParseLines(SplitLines(listing)), m[k - 1]);
        Details(unit, DetailCommands(unit), FragmentValue(showOutput))
      case _ => BackHome
  }
}
