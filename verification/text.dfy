/**
 Python string primitives the service manager leans on: `str.isspace`,
 `str.strip`, `str.split(None, maxsplit)` and ASCII `str.lower`.
 Strings are sequences of Unicode scalar values, as Python's `str` is.
 */
module Text {

  /** Python's `str.isspace()` for a single character. */
  predicate IsSpace(c: char) {
    || ('\t' <= c <= '\r')
    || ('\U{1C}' <= c <= '\U{1F}')
    || c == ' '
    || c == '\U{85}'
    || c == '\U{A0}'
    || c == '\U{1680}'
    || ('\U{2000}' <= c <= '\U{200A}')
    || c == '\U{2028}'
    || c == '\U{2029}'
    || c == '\U{202F}'
    || c == '\U{205F}'
    || c == '\U{3000}'
  }

  predicate AllSpace(s: string) {
    forall i :: 0 <= i < |s| ==> IsSpace(s[i])
  }

  predicate NoSpace(s: string) {
    forall i :: 0 <= i < |s| ==> !IsSpace(s[i])
  }

  /** A non-empty run of non-whitespace characters: one field of a split. */
  predicate IsWord(s: string) {
    |s| > 0 && NoSpace(s)
  }

  /** A non-empty run of whitespace: what separates two fields. */
  predicate IsGap(s: string) {
    |s| > 0 && AllSpace(s)
  }

  /** True when `s` is empty or begins with whitespace, i.e. a word that
      precedes it has ended. */
  predicate EndsWord(s: string) {
    |s| == 0 || IsSpace(s[0])
  }

  /** The length of the longest whitespace prefix of `s`. */
  function LeadLength(s: string): (n: nat)
    ensures n <= |s| && AllSpace(s[..n])
    ensures n == |s| || !IsSpace(s[n])
  {
    if |s| > 0 && IsSpace(s[0]) then
      var n := 1 + LeadLength(s[1..]);
      assert forall i :: 0 < i < n ==> s[..n][i] == s[1..][..n - 1][i - 1];
      n
    else 0
  }

  /** Where the longest whitespace suffix of `s` starts. */
  function TrailStart(s: string): (n: nat)
    ensures n <= |s| && AllSpace(s[n..])
    ensures n == 0 || !IsSpace(s[n - 1])
  {
    if |s| > 0 && IsSpace(s[|s| - 1]) then
      var n := TrailStart(s[..|s| - 1]);
      assert forall i :: n <= i < |s| - 1 ==> s[i] == s[..|s| - 1][i];
      n
    else |s|
  }

  /** `str.lstrip()`: the suffix left after the longest whitespace prefix. */
  function TrimLeft(s: string): (r: string)
    ensures |r| <= |s| && s[|s| - |r|..] == r
    ensures AllSpace(s[..|s| - |r|])
    ensures |r| == 0 || !IsSpace(r[0])
  {
    s[LeadLength(s)..]
  }

  /** `str.rstrip()`: the prefix left after the longest whitespace suffix. */
  function TrimRight(s: string): (r: string)
    ensures |r| <= |s| && s[..|r|] == r
    ensures AllSpace(s[|r|..])
    ensures |r| == 0 || !IsSpace(r[|r| - 1])
  {
    s[..TrailStart(s)]
  }

  /** `r` is the slice of `s` starting at `i`, with only whitespace around it. */
  ghost predicate SliceInSpace(s: string, i: int, r: string) {
    && 0 <= i && i + |r| <= |s|
    && s[i..i + |r|] == r
    && AllSpace(s[..i])
    && AllSpace(s[i + |r|..])
  }

  /** `str.strip()`: the slice between the whitespace prefix and suffix;
      it is empty exactly when the whole string is whitespace. */
  function Strip(s: string): (r: string)
    ensures exists i :: SliceInSpace(s, i, r)
    ensures |r| == 0 || (!IsSpace(r[0]) && !IsSpace(r[|r| - 1]))
    ensures |r| == 0 <==> AllSpace(s)
  {
    var t := TrimLeft(s);
    var r := TrimRight(t);
    StripSlice(s, t, r);
    assert |r| > 0 ==> r[0] == t[0];
    r
  }

  /** Trimming the whitespace prefix, leaving `t`, and then the whitespace
      suffix of `t`, leaving `r`, cuts `r` out of `s` with only whitespace
      around it. */
  lemma StripSlice(s: string, t: string, r: string)
    requires |t| <= |s| && s[|s| - |t|..] == t && AllSpace(s[..|s| - |t|])
    requires |t| == 0 || !IsSpace(t[0])
    requires |r| <= |t| && t[..|r|] == r && AllSpace(t[|r|..])
    requires |r| == 0 || !IsSpace(r[|r| - 1])
    ensures SliceInSpace(s, |s| - |t|, r)
    ensures |r| == 0 <==> AllSpace(s)
  {
    var i := |s| - |t|;
    assert s[i..i + |r|] == r;
    assert s[i + |r|..] == t[|r|..];
    assert |r| == 0 ==> |t| == 0;
    assert |t| == 0 ==> s[..i] == s;
    assert |r| > 0 ==> !AllSpace(s) by {
      if |r| > 0 { assert s[i] == r[0]; }
    }
  }

  /** The longest whitespace-free prefix of `s`. */
  function WordPrefix(s: string): (r: string)
    ensures |r| <= |s| && s[..|r|] == r
    ensures NoSpace(r)
    ensures EndsWord(s[|r|..])
  {
    if |s| == 0 || IsSpace(s[0]) then [] else [s[0]] + WordPrefix(s[1..])
  }

  /** Python's `s.split(None, maxsplit)`, read the way CPython scans:
      whitespace before a field is skipped, at most `maxsplit` fields are
      cut off, and whatever follows the last cut, minus its leading
      whitespace, is the final item with its trailing whitespace kept. */
  function SplitWhitespace(s: string, maxsplit: nat): (parts: seq<string>)
    ensures |parts| <= maxsplit + 1
    ensures forall i :: 0 <= i < |parts| ==> |parts[i]| > 0
    ensures forall i :: 0 <= i < |parts| && i < maxsplit ==> NoSpace(parts[i])
    ensures |parts| == maxsplit + 1 ==> !IsSpace(parts[maxsplit][0])
    decreases |s|
  {
    if |s| == 0 then []
    else if IsSpace(s[0]) then SplitWhitespace(s[1..], maxsplit)
    else if maxsplit == 0 then [s]
    else
      var w := WordPrefix(s);
      var rest := SplitWhitespace(s[|w|..], maxsplit - 1);
      var parts := [w] + rest;
      assert forall i :: 0 < i < |parts| ==> parts[i] == rest[i - 1];
      parts
  }

  /** Number of maximal whitespace-free runs in `s`, read left to right;
      `afterSpace` says whether the character before `s` was whitespace
      (or there was none). */
  function CountWords(s: string, afterSpace: bool): nat
  {
    if |s| == 0 then 0
    else if IsSpace(s[0]) then CountWords(s[1..], true)
    else (if afterSpace then 1 else 0) + CountWords(s[1..], false)
  }

  /** The number of whitespace-separated fields in `s`. */
  function WordCount(s: string): nat {
    CountWords(s, true)
  }

  lemma {:induction false} CountWordsOverWord(w: string, s: string, b: bool)
    requires IsWord(w)
    ensures CountWords(w + s, b) == (if b then 1 else 0) + CountWords(s, false)
    decreases |w|
  {
    assert (w + s)[1..] == w[1..] + s;
    if |w| > 1 {
      CountWordsOverWord(w[1..], s, false);
    } else {
      assert w[1..] + s == s;
    }
  }

  /** A string has no fields exactly when it is all whitespace. */
  lemma {:induction false} WordCountZero(s: string)
    ensures WordCount(s) == 0 <==> AllSpace(s)
    decreases |s|
  {
    if |s| > 0 {
      WordCountZero(s[1..]);
      if IsSpace(s[0]) {
        assert forall i :: 0 < i < |s| ==> s[1..][i - 1] == s[i];
      } else {
        assert !AllSpace(s);
      }
    }
  }

  /** `split(None, maxsplit)` yields one item per field, but no more than
      `maxsplit + 1` items. */
  lemma {:induction false} SplitWhitespaceCount(s: string, maxsplit: nat)
    ensures |SplitWhitespace(s, maxsplit)| ==
              if WordCount(s) < maxsplit + 1 then WordCount(s) else maxsplit + 1
    decreases |s|
  {
    if |s| == 0 {
    } else if IsSpace(s[0]) {
      SplitWhitespaceCount(s[1..], maxsplit);
    } else if maxsplit == 0 {
    } else {
      var w := WordPrefix(s);
      var rest := s[|w|..];
      assert s == w + rest;
      CountWordsOverWord(w, rest, true);
      assert CountWords(rest, false) == CountWords(rest, true);
      SplitWhitespaceCount(rest, maxsplit - 1);
    }
  }

  lemma {:induction false} WordPrefixOfWord(w: string, rest: string)
    requires NoSpace(w)
    requires EndsWord(rest)
    ensures WordPrefix(w + rest) == w
    decreases |w|
  {
    if |w| > 0 {
      assert (w + rest)[1..] == w[1..] + rest;
      WordPrefixOfWord(w[1..], rest);
    } else {
      assert w + rest == rest;
    }
  }

  /** Splitting `lead + w + rest`, where `lead` is whitespace and the word
      `w` ends where `rest` begins, cuts off exactly `w`. */
  lemma {:induction false} SplitWhitespaceCons(lead: string, w: string, rest: string, maxsplit: nat)
    requires AllSpace(lead) && IsWord(w) && EndsWord(rest)
    requires maxsplit > 0
    ensures SplitWhitespace(lead + (w + rest), maxsplit) == [w] + SplitWhitespace(rest, maxsplit - 1)
    decreases |lead|
  {
    if |lead| > 0 {
      assert (lead + (w + rest))[1..] == lead[1..] + (w + rest);
      SplitWhitespaceCons(lead[1..], w, rest, maxsplit);
    } else {
      assert lead + (w + rest) == w + rest;
      WordPrefixOfWord(w, rest);
      assert (w + rest)[|w|..] == rest;
    }
  }

  /** With no splits left, the item is the text after the leading whitespace. */
  lemma {:induction false} SplitWhitespaceLast(lead: string, tail: string)
    requires AllSpace(lead) && |tail| > 0 && !IsSpace(tail[0])
    ensures SplitWhitespace(lead + tail, 0) == [tail]
    decreases |lead|
  {
    if |lead| > 0 {
      assert (lead + tail)[1..] == lead[1..] + tail;
      SplitWhitespaceLast(lead[1..], tail);
    } else {
      assert lead + tail == tail;
    }
  }

  /** The converse of `SplitWhitespaceCons`: the first item is preceded by
      whitespace only, and the rest of the string, which starts at a word
      boundary, splits into the remaining items. */
  lemma {:induction false} SplitWhitespaceStep(s: string, maxsplit: nat) returns (lead: string, rest: string)
    requires maxsplit > 0 && |SplitWhitespace(s, maxsplit)| > 0
    ensures AllSpace(lead) && EndsWord(rest)
    ensures s == lead + (SplitWhitespace(s, maxsplit)[0] + rest)
    ensures SplitWhitespace(rest, maxsplit - 1) == SplitWhitespace(s, maxsplit)[1..]
    decreases |s|
  {
    if IsSpace(s[0]) {
      var lead';
      lead', rest := SplitWhitespaceStep(s[1..], maxsplit);
      lead := [s[0]] + lead';
      assert s == [s[0]] + s[1..];
    } else {
      var w := WordPrefix(s);
      lead := "";
      rest := s[|w|..];
      assert s == w + rest;
    }
  }

  /** With no splits left, the only item is preceded by whitespace only. */
  lemma {:induction false} SplitWhitespaceFinal(s: string) returns (lead: string)
    requires |SplitWhitespace(s, 0)| > 0
    ensures AllSpace(lead)
    ensures s == lead + SplitWhitespace(s, 0)[0]
    decreases |s|
  {
    if IsSpace(s[0]) {
      var lead' := SplitWhitespaceFinal(s[1..]);
      lead := [s[0]] + lead';
      assert s == [s[0]] + s[1..];
    } else {
      lead := "";
    }
  }

  /** ASCII lower-casing of one character (Python's `str.lower` restricted
      to ASCII letters). */
  function LowerChar(c: char): char {
    if 'A' <= c <= 'Z' then (c as int + 32) as char else c
  }

  function Lower(s: string): string {
    seq(|s|, i requires 0 <= i < |s| => LowerChar(s[i]))
  }

  /** Lower-casing twice is lower-casing once. */
  lemma {:induction false} LowerIdempotent(s: string)
    ensures Lower(Lower(s)) == Lower(s)
  {
  }

  /** `needle` occurs in `hay` starting at index `i`. */
  ghost predicate OccursAt(hay: string, needle: string, i: int) {
    0 <= i && i + |needle| <= |hay| && hay[i..i + |needle|] == needle
  }

  /** Python's `needle in hay` for strings. */
  predicate Contains(hay: string, needle: string)
    decreases |hay|
  {
    if |needle| <= |hay| && hay[..|needle|] == needle then true
    else if |hay| == 0 then false
    else Contains(hay[1..], needle)
  }

  /** `Contains` holds exactly when the needle occurs at some index. */
  lemma {:induction false} ContainsIff(hay: string, needle: string)
    ensures Contains(hay, needle) <==> exists i :: OccursAt(hay, needle, i)
    decreases |hay|
  {
    if |needle| <= |hay| && hay[..|needle|] == needle {
      assert OccursAt(hay, needle, 0);
    } else if |hay| == 0 {
    } else {
      ContainsIff(hay[1..], needle);
      if exists i :: OccursAt(hay[1..], needle, i) {
        var i :| OccursAt(hay[1..], needle, i);
        assert hay[1..][i..i + |needle|] == hay[i + 1..i + 1 + |needle|];
        assert OccursAt(hay, needle, i + 1);
      }
      if exists i :: OccursAt(hay, needle, i) {
        var i :| OccursAt(hay, needle, i);
        assert i != 0;
        assert hay[1..][i - 1..i - 1 + |needle|] == hay[i..i + |needle|];
        assert OccursAt(hay[1..], needle, i - 1);
      }
    }
  }

  /** The empty string is in every string. */
  lemma {:induction false} ContainsEmpty(hay: string)
    ensures Contains(hay, "")
  {
  }
}
