/**
 The keyword filter of `find_service`: a record is kept when the
 lower-cased keyword occurs in the lower-cased unit name or description.
 */
module Search {
  import opened Text
  import opened Services

  /** `keyword in unit.lower() or keyword in desc.lower()`, for a keyword
      that `find_service` has already lower-cased. */
  predicate MatchesKeyword(keyword: string, svc: Service) {
    Contains(Lower(svc.unit), keyword) || Contains(Lower(svc.description), keyword)
  }

  /** The records that match, in listing order. */
  function Matching(keyword: string, services: seq<Service>): seq<Service> {
    if |services| == 0 then []
    else
      (if MatchesKeyword(keyword, services[0]) then [services[0]] else [])
      + Matching(keyword, services[1..])
  }

  /** `a` is `b` with some elements left out, the rest in the same order. */
  ghost predicate IsSubsequence<T>(a: seq<T>, b: seq<T>)
    decreases |b|
  {
    if |a| == 0 then true
    else if |b| == 0 then false
    else if a[0] == b[0] then IsSubsequence(a[1..], b[1..])
    else IsSubsequence(a, b[1..])
  }

  /** Filtering two pieces of a listing is filtering each piece. */
  lemma {:induction false} MatchingAppend(keyword: string, a: seq<Service>, b: seq<Service>)
    ensures Matching(keyword, a + b) == Matching(keyword, a) + Matching(keyword, b)
    decreases |a|
  {
    if |a| == 0 {
      assert a + b == b;
    } else {
      assert (a + b)[0] == a[0];
      assert (a + b)[1..] == a[1..] + b;
      MatchingAppend(keyword, a[1..], b);
    }
  }

  /** A record is in the result exactly when it is in the listing and
      matches the keyword. */
  lemma {:induction false} MatchingMembers(keyword: string, services: seq<Service>, svc: Service)
    ensures svc in Matching(keyword, services) <==> svc in services && MatchesKeyword(keyword, svc)
    decreases |services|
  {
    if |services| > 0 {
      MatchingMembers(keyword, services[1..], svc);
      assert services == [services[0]] + services[1..];
    }
  }

  /** The matches keep the order of the listing. */
  lemma {:induction false} MatchingIsSubsequence(keyword: string, services: seq<Service>)
    ensures IsSubsequence(Matching(keyword, services), services)
    decreases |services|
  {
    if |services| > 0 {
      var m := Matching(keyword, services);
      var rest := Matching(keyword, services[1..]);
      MatchingIsSubsequence(keyword, services[1..]);
      if MatchesKeyword(keyword, services[0]) {
        assert m == [services[0]] + rest;
        assert m[1..] == rest;
      } else {
        assert m == rest;
        SkipHead(m, services);
      }
    }
  }

  lemma {:induction false} SkipHead<T>(a: seq<T>, b: seq<T>)
    requires |b| > 0 && IsSubsequence(a, b[1..])
    ensures IsSubsequence(a, b)
    decreases |b|, |a|
  {
    if |a| > 0 && a[0] == b[0] {
      SubsequenceTail(a, b[1..]);
    }
  }

  lemma {:induction false} SubsequenceTail<T>(a: seq<T>, b: seq<T>)
    requires |a| > 0 && IsSubsequence(a, b)
    ensures IsSubsequence(a[1..], b)
    decreases |b|, |a|
  {
    if a[0] == b[0] {
      SkipHead(a[1..], b);
    } else {
      SubsequenceTail(a, b[1..]);
      SkipHead(a[1..], b);
    }
  }

  /** An empty keyword is in every string, so it keeps the whole listing. */
  lemma {:induction false} EmptyKeywordMatchesAll(services: seq<Service>)
    ensures Matching("", services) == services
    decreases |services|
  {
    if |services| > 0 {
      ContainsEmpty(Lower(services[0].unit));
      EmptyKeywordMatchesAll(services[1..]);
      assert services == [services[0]] + services[1..];
    }
  }

  /** The match test in terms of positions: the keyword occurs at some
      index of the lower-cased unit name or description. */
  lemma MatchesKeywordIff(keyword: string, svc: Service)
    ensures MatchesKeyword(keyword, svc) <==>
              (exists i :: OccursAt(Lower(svc.unit), keyword, i))
              || (exists i :: OccursAt(Lower(svc.description), keyword, i))
  {
    ContainsIff(Lower(svc.unit), keyword);
    ContainsIff(Lower(svc.description), keyword);
  }

  /** What one more line adds to the matches: its record when it has one
      and that record matches. */
  function LineMatches(keyword: string, line: string): seq<Service> {
    match ParseLine(line)
    case Some(svc) => if MatchesKeyword(keyword, svc) then [svc] else []
    case None => []
  }

  lemma MatchingStep(keyword: string, lines: seq<string>, i: nat)
    requires i < |lines|
    ensures Matching(keyword, ParseLines(lines[..i + 1]))
              == Matching(keyword, ParseLines(lines[..i])) + LineMatches(keyword, lines[i])
  {
    assert lines[..i + 1] == lines[..i] + [lines[i]];
    ParseLinesAppend(lines[..i], [lines[i]]);
    MatchingAppend(keyword, ParseLines(lines[..i]), ParseLines([lines[i]]));
    assert [lines[i]][1..] == [];
  }

  /** The `for line in lines` loop of `find_service`: it parses each line
      and keeps the records that match the lower-cased keyword. */
  method FindMatches(keyword: string, lines: seq<string>) returns (matches: seq<Service>)
    ensures matches == Matching(Lower(keyword), ParseLines(lines))
  {
    var key := Lower(keyword);
    matches := [];
    var i := 0;
    while i < |lines|
      invariant 0 <= i <= |lines|
      invariant matches == Matching(key, ParseLines(lines[..i]))
    {
      MatchingStep(key, lines, i);
      var parts := SplitWhitespace(lines[i], 4);
      if |parts| == 5 {
        var svc := Service(parts[0], parts[1], parts[2], parts[3], parts[4]);
        if Contains(Lower(svc.unit), key) || Contains(Lower(svc.description), key) {
          matches := matches + [svc];
        }
      }
      i := i + 1;
    }
    assert lines[..i] == lines;
  }

  lemma {:induction false} NotContainsChar(hay: string, needle: string, c: char)
    requires c in needle && c !in hay
    ensures !Contains(hay, needle)
    decreases |hay|
  {
    if |needle| <= |hay| {
      var k :| 0 <= k < |needle| && needle[k] == c;
      assert hay[..|needle|][k] != c;
    }
    if |hay| > 0 {
      NotContainsChar(hay[1..], needle, c);
    }
  }

  /** A letter absent from `s` in both cases is absent from `Lower(s)`. */
  lemma LowerKeepsAbsent(s: string, lower: char, upper: char)
    requires 'A' <= upper <= 'Z' && lower == LowerChar(upper)
    requires lower !in s && upper !in s
    ensures lower !in Lower(s)
  {
    forall i | 0 <= i < |s| ensures Lower(s)[i] != lower {
      assert s[i] != lower && s[i] != upper;
    }
  }

  lemma DbusHasNoH()
    ensures 'h' !in "D-Bus System Message Bus"
    ensures 'H' !in "D-Bus System Message Bus"
  {
  }

  function SshRecord(): Service {
    Service("ssh.service", "loaded", "active", "running", "OpenBSD Secure Shell server")
  }

  function DbusRecord(): Service {
    Service("dbus.service", "loaded", "active", "running", "D-Bus System Message Bus")
  }

  lemma SshMatches()
    ensures MatchesKeyword("ssh", SshRecord())
  {
    assert Lower(SshRecord().unit)[..3] == "ssh";
  }

  lemma DbusDoesNotMatch()
    ensures !MatchesKeyword("ssh", DbusRecord())
  {
    var dbus := DbusRecord();
    LowerKeepsAbsent(dbus.unit, 'h', 'H');
    DbusHasNoH();
    LowerKeepsAbsent(dbus.description, 'h', 'H');
    NotContainsChar(Lower(dbus.unit), "ssh", 'h');
    NotContainsChar(Lower(dbus.description), "ssh", 'h');
  }

  /** Searching "ssh" in a listing of the OpenSSH and D-Bus services finds
      the OpenSSH service only. */
  lemma SshExample()
    ensures Matching("ssh", [SshRecord(), DbusRecord()]) == [SshRecord()]
  {
    var ssh, dbus := SshRecord(), DbusRecord();
    SshMatches();
    DbusDoesNotMatch();
    MatchingOne("ssh", dbus);
    MatchingAppend("ssh", [ssh], [dbus]);
    MatchingOne("ssh", ssh);
    assert [ssh] + [dbus] == [ssh, dbus];
  }

  lemma MatchingOne(keyword: string, svc: Service)
    ensures Matching(keyword, [svc]) == if MatchesKeyword(keyword, svc) then [svc] else []
  {
    assert [svc][1..] == [];
  }
}
