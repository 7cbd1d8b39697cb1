/**
 `list_services` up to the table it draws: the captured output of
 `systemctl list-units` is split into lines, parsed into records and sorted.
 */
module Listing {
  import opened Lines
  import opened Services
  import opened Ordering

  /** The rows of the "Services Status" table, in display order. */
  function ListServices(listing: string): seq<Service> {
    SortServices(ParseLines(SplitLines(listing)))
  }

  /** The table shows every parsed record exactly as often as it was parsed,
      in key order, and records with the same key in listing order. */
  lemma ListServicesSpec(listing: string)
    ensures var parsed := ParseLines(SplitLines(listing));
            var rows := ListServices(listing);
            && multiset(rows) == multiset(parsed)
            && Sorted(rows)
            && forall k :: WithKey(rows, k) == WithKey(parsed, k)
  {
    var parsed := ParseLines(SplitLines(listing));
    SortPermutes(parsed);
    SortSorted(parsed);
    forall k ensures WithKey(ListServices(listing), k) == WithKey(parsed, k) {
      SortStable(parsed, k);
    }
  }

  /** A listing of lines that each parse shows one row per line. */
  lemma {:induction false} AllLinesParse(lines: seq<string>)
    requires forall i :: 0 <= i < |lines| ==> ParseLine(lines[i]).Some?
    ensures |ParseLines(lines)| == |lines|
    decreases |lines|
  {
    if |lines| > 0 {
      AllLinesParse(lines[1..]);
    }
  }
}
