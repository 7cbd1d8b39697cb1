/**
 The service record and the line parser that `list_services` and
 `find_service` both run over the lines of `systemctl list-units`.
 */
module Services {
  import opened Wrappers
  import opened Text

  /** One row of `systemctl list-units`: UNIT LOAD ACTIVE SUB DESCRIPTION. */
  datatype Service = Service(unit: string, load: string, active: string, sub: string, description: string)

  /** What every parsed record looks like: four whitespace-free fields and
      a description that starts with a non-whitespace character (it may
      hold whitespace further on). */
  predicate WellFormed(svc: Service) {
    && IsWord(svc.unit)
    && IsWord(svc.load)
    && IsWord(svc.active)
    && IsWord(svc.sub)
    && |svc.description| > 0
    && !IsSpace(svc.description[0])
  }

  /** The whitespace around the fields of a listing line: `lead` before the
      unit (possibly empty) and the four separators after unit, load,
      active and sub. */
  datatype Gaps = Gaps(lead: string, afterUnit: string, afterLoad: string, afterActive: string, afterSub: string)

  predicate ValidGaps(g: Gaps) {
    && AllSpace(g.lead)
    && IsGap(g.afterUnit)
    && IsGap(g.afterLoad)
    && IsGap(g.afterActive)
    && IsGap(g.afterSub)
  }

  /** The listing line made of a record's fields and the given gaps. */
  function Layout(svc: Service, g: Gaps): string {
    g.lead + (svc.unit + (g.afterUnit + (svc.load + (g.afterLoad + (svc.active +
      (g.afterActive + (svc.sub + (g.afterSub + svc.description))))))))
  }

  /** `line.split(None, 4)` and the `len(parts) == 5` test: a record comes
      out exactly when the line has at least five whitespace-separated
      fields. */
  function ParseLine(line: string): (r: Option<Service>)
    ensures r.Some? <==> WordCount(line) >= 5
    ensures r.Some? ==> WellFormed(r.value)
  {
    SplitWhitespaceCount(line, 4);
    var parts := SplitWhitespace(line, 4);
    if |parts| == 5 then Some(Service(parts[0], parts[1], parts[2], parts[3], parts[4]))
    else None
  }

  lemma {:induction false} GapEndsWord(gap: string, rest: string)
    requires IsGap(gap)
    ensures EndsWord(gap + rest)
  {
    assert (gap + rest)[0] == gap[0];
  }

  /** A line laid out from well-formed fields and whitespace gaps parses
      back to those fields; the description keeps its inner whitespace. */
  lemma {:induction false} ParseLayout(svc: Service, g: Gaps)
    requires WellFormed(svc) && ValidGaps(g)
    ensures ParseLine(Layout(svc, g)) == Some(svc)
  {
    var r4 := g.afterSub + svc.description;
    var r3 := g.afterActive + (svc.sub + r4);
    var r2 := g.afterLoad + (svc.active + r3);
    var r1 := g.afterUnit + (svc.load + r2);
    GapEndsWord(g.afterUnit, svc.load + r2);
    GapEndsWord(g.afterLoad, svc.active + r3);
    GapEndsWord(g.afterActive, svc.sub + r4);
    GapEndsWord(g.afterSub, svc.description);
    SplitWhitespaceCons(g.lead, svc.unit, r1, 4);
    SplitWhitespaceCons(g.afterUnit, svc.load, r2, 3);
    SplitWhitespaceCons(g.afterLoad, svc.active, r3, 2);
    SplitWhitespaceCons(g.afterActive, svc.sub, r4, 1);
    SplitWhitespaceLast(g.afterSub, svc.description);
  }

  /** When `rest` begins with whitespace, the gap before a field that starts
      with a non-whitespace character cannot be empty. */
  lemma {:induction false} SeparatorNonEmpty(rest: string, gap: string, word: string, tail: string)
    requires EndsWord(rest) && rest == gap + (word + tail)
    requires |word| > 0 && !IsSpace(word[0])
    ensures |gap| > 0
  {
  }

  /** One step of the split after the first field: a non-empty gap, the
      next field, and the text that remains. */
  lemma {:induction false} FieldAfterGap(r: string, m: nat) returns (gap: string, rest: string)
    requires EndsWord(r) && m > 0 && |SplitWhitespace(r, m)| > 0
    ensures IsGap(gap) && EndsWord(rest)
    ensures r == gap + (SplitWhitespace(r, m)[0] + rest)
    ensures SplitWhitespace(rest, m - 1) == SplitWhitespace(r, m)[1..]
  {
    gap, rest := SplitWhitespaceStep(r, m);
    SeparatorNonEmpty(r, gap, SplitWhitespace(r, m)[0], rest);
  }

  lemma LastFieldLayout(r: string) returns (a: string)
    requires EndsWord(r) && |SplitWhitespace(r, 0)| == 1
    ensures IsGap(a)
    ensures r == a + SplitWhitespace(r, 0)[0]
  {
    var q := SplitWhitespace(r, 0);
    a := SplitWhitespaceFinal(r);
    assert r == a + (q[0] + "");
    SeparatorNonEmpty(r, a, q[0], "");
  }

  lemma TailLayout1(r: string) returns (a3: string, a4: string)
    requires EndsWord(r) && |SplitWhitespace(r, 1)| == 2
    ensures IsGap(a3) && IsGap(a4)
    ensures var q := SplitWhitespace(r, 1);
            r == a3 + (q[0] + (a4 + q[1]))
  {
    var q := SplitWhitespace(r, 1);
    var rest;
    a3, rest := FieldAfterGap(r, 1);
    a4 := LastFieldLayout(rest);
  }

  lemma TailLayout2(r: string) returns (a2: string, a3: string, a4: string)
    requires EndsWord(r) && |SplitWhitespace(r, 2)| == 3
    ensures IsGap(a2) && IsGap(a3) && IsGap(a4)
    ensures var q := SplitWhitespace(r, 2);
            r == a2 + (q[0] + (a3 + (q[1] + (a4 + q[2]))))
  {
    var q := SplitWhitespace(r, 2);
    var rest;
    a2, rest := FieldAfterGap(r, 2);
    a3, a4 := TailLayout1(rest);
    assert SplitWhitespace(rest, 1) == q[1..];
  }

  lemma TailLayout3(r: string) returns (a1: string, a2: string, a3: string, a4: string)
    requires EndsWord(r) && |SplitWhitespace(r, 3)| == 4
    ensures IsGap(a1) && IsGap(a2) && IsGap(a3) && IsGap(a4)
    ensures var q := SplitWhitespace(r, 3);
            r == a1 + (q[0] + (a2 + (q[1] + (a3 + (q[2] + (a4 + q[3]))))))
  {
    var q := SplitWhitespace(r, 3);
    var rest;
    a1, rest := FieldAfterGap(r, 3);
    a2, a3, a4 := TailLayout2(rest);
    assert SplitWhitespace(rest, 2) == q[1..];
  }

  /** Every parsed line is laid out from its record's fields and whitespace
      gaps: nothing of the line is lost but the whitespace between fields. */
  lemma {:induction false} ParsedLayout(line: string) returns (g: Gaps)
    requires ParseLine(line).Some?
    ensures ValidGaps(g)
    ensures Layout(ParseLine(line).value, g) == line
  {
    var p := SplitWhitespace(line, 4);
    assert |p| == 5;
    var lead, r1 := SplitWhitespaceStep(line, 4);
    var a1, a2, a3, a4 := TailLayout3(r1);
    assert SplitWhitespace(r1, 3) == p[1..];
    g := Gaps(lead, a1, a2, a3, a4);
  }

  lemma NginxFields()
    ensures WellFormed(Service("nginx.service", "loaded", "active", "running", "A high performance web server"))
  {
    assert IsWord("nginx.service") && IsWord("loaded") && IsWord("active") && IsWord("running");
  }

  /** A typical `systemctl list-units` row, the line
      "nginx.service loaded active running A high performance web server":
      the four short fields are cut at single spaces and the description
      stays in one piece. */
  lemma {:induction false} NginxExample()
    ensures ParseLine("nginx.service" + " " + "loaded" + " " + "active" + " " + "running"
                      + " " + "A high performance web server")
         == Some(Service("nginx.service", "loaded", "active", "running", "A high performance web server"))
  {
    var svc := Service("nginx.service", "loaded", "active", "running", "A high performance web server");
    var g := Gaps("", " ", " ", " ", " ");
    NginxFields();
    assert ValidGaps(g);
    assert Layout(svc, g) == "nginx.service" + " " + "loaded" + " " + "active" + " " + "running"
                             + " " + "A high performance web server";
    ParseLayout(svc, g);
  }

  /** The records of the lines that parse, in line order. */
  function ParseLines(lines: seq<string>): (services: seq<Service>)
    ensures |services| <= |lines|
    ensures forall i :: 0 <= i < |services| ==> WellFormed(services[i])
  {
    if |lines| == 0 then []
    else
      var rest := ParseLines(lines[1..]);
      match ParseLine(lines[0])
      case Some(svc) =>
        var services := [svc] + rest;
        assert forall i :: 0 < i < |services| ==> services[i] == rest[i - 1];
        services
      case None => rest
  }

  /** Parsing a listing in two pieces gives the two pieces' records in order. */
  lemma {:induction false} ParseLinesAppend(a: seq<string>, b: seq<string>)
    ensures ParseLines(a + b) == ParseLines(a) + ParseLines(b)
    decreases |a|
  {
    if |a| == 0 {
      assert a + b == b;
    } else {
      assert (a + b)[0] == a[0];
      assert (a + b)[1..] == a[1..] + b;
      ParseLinesAppend(a[1..], b);
    }
  }

  /** Each line contributes at most one record, placed ahead of the records
      of the lines after it: its own when it has at least five fields, and
      none when it has fewer. */
  lemma LineContribution(line: string, rest: seq<string>)
    ensures ParseLines([line] + rest)
              == (if WordCount(line) >= 5 then [ParseLine(line).value] else []) + ParseLines(rest)
  {
    assert ([line] + rest)[0] == line;
    assert ([line] + rest)[1..] == rest;
  }

  /** A record comes from some line of the listing, and every line with at
      least five fields contributes its record. */
  lemma {:induction false} ParseLinesMembers(lines: seq<string>, svc: Service)
    ensures svc in ParseLines(lines) <==> exists i :: 0 <= i < |lines| && ParseLine(lines[i]) == Some(svc)
    decreases |lines|
  {
    if |lines| > 0 {
      var rest := lines[1..];
      ParseLinesMembers(rest, svc);
      assert svc in ParseLines(lines) <==> ParseLine(lines[0]) == Some(svc) || svc in ParseLines(rest);
      if svc in ParseLines(rest) {
        var i :| 0 <= i < |rest| && ParseLine(rest[i]) == Some(svc);
        assert lines[i + 1] == rest[i];
      }
      if exists i :: 0 < i < |lines| && ParseLine(lines[i]) == Some(svc) {
        var i :| 0 < i < |lines| && ParseLine(lines[i]) == Some(svc);
        assert rest[i - 1] == lines[i];
      }
    }
  }

  lemma ParseStep(lines: seq<string>, i: nat)
    requires i < |lines|
    ensures ParseLines(lines[..i + 1])
              == ParseLines(lines[..i]) + (match ParseLine(lines[i]) case Some(svc) => [svc] case None => [])
  {
    assert lines[..i + 1] == lines[..i] + [lines[i]];
    ParseLinesAppend(lines[..i], [lines[i]]);
    LineContribution(lines[i], []);
    assert [lines[i]] + [] == [lines[i]];
  }

  /** The `for line in lines` loop of `list_services`: it appends the record
      of each line that splits into five parts. */
  method CollectServices(lines: seq<string>) returns (services: seq<Service>)
    ensures services == ParseLines(lines)
  {
    services := [];
    var i := 0;
    while i < |lines|
      invariant 0 <= i <= |lines|
      invariant services == ParseLines(lines[..i])
    {
      ParseStep(lines, i);
      var parts := SplitWhitespace(lines[i], 4);
      if |parts| == 5 {
        services := services + [Service(parts[0], parts[1], parts[2], parts[3], parts[4])];
      }
      i := i + 1;
    }
    assert lines[..i] == lines;
  }
}
