/** Searching a buffer for a string with the table of borders. */
module Kmp {

  /** The first `j` characters of `needle` end at position `i` of `text`. */
  ghost predicate Ends(text: string, i: nat, needle: string, j: nat) {
    j <= i <= |text| && j <= |needle| && text[i - j..i] == needle[..j]
  }

  /** A proper border of the first `i` characters: both a prefix and a suffix of them. */
  ghost predicate Border(needle: string, i: nat, k: nat) {
    k < i && Ends(needle, i, needle, k)
  }

  ghost predicate LongestBorder(needle: string, i: nat, k: nat) {
    Border(needle, i, k) && forall k': nat | Border(needle, i, k') :: k' <= k
  }

  /** The whole of `needle` stands at position `p`. */
  ghost predicate Occurs(text: string, needle: string, p: nat) {
    p + |needle| <= |text| && text[p..p + |needle|] == needle
  }

  lemma OccursWhereItEnds(text: string, needle: string, i: nat)
    requires |needle| <= i <= |text|
    ensures Occurs(text, needle, i - |needle|) <==> Ends(text, i, needle, |needle|)
  {
    assert needle[..|needle|] == needle;
  }

  /** The shorter prefixes that end where a prefix ends are the borders of that prefix. */
  lemma ShorterEnds(text: string, i: nat, needle: string, j: nat, k: nat)
    requires Ends(text, i, needle, j) && k < j
    ensures Ends(text, i, needle, k) <==> Border(needle, j, k)
  {
    assert text[i - k..i] == text[i - j..i][j - k..];
    assert needle[j - k..j] == needle[..j][j - k..];
  }

  /** A prefix ends one further on exactly when it fits there and its last character does. */
  lemma EndsNext(text: string, i: nat, needle: string, k: nat)
    requires i < |text| && 0 < k <= |needle|
    ensures Ends(text, i + 1, needle, k) <==> Ends(text, i, needle, k - 1) && text[i] == needle[k - 1]
  {
    if k <= i + 1 {
      assert text[i + 1 - k..i + 1] == text[i - (k - 1)..i] + [text[i]];
      assert needle[..k] == needle[..k - 1] + [needle[k - 1]];
    }
  }

  /** No prefix below `limit` that ends at `e` is longer than `bound`. */
  ghost predicate NoneLonger(text: string, e: nat, needle: string, bound: nat, limit: nat) {
    forall k: nat | k < limit && Ends(text, e, needle, k) :: k <= bound
  }

  /** `j` is a prefix that ends at `i`; none below `limit` that ends one further on can be longer
      than its extension. */
  ghost predicate Candidate(text: string, i: nat, needle: string, j: nat, limit: nat) {
    i < |text| && Ends(text, i, needle, j) && NoneLonger(text, i + 1, needle, j + 1, limit)
  }

  /** When the next character does not fit, the longest border of the candidate is the next one. */
  lemma FallBack(text: string, i: nat, needle: string, j: nat, b: nat, limit: nat)
    requires Candidate(text, i, needle, j, limit) && 0 < j < |needle| && text[i] != needle[j]
    requires LongestBorder(needle, j, b)
    ensures b < j && Candidate(text, i, needle, b, limit)
  {
    ShorterEnds(text, i, needle, j, b);
    var e := i + 1;
    forall k: nat | k < limit && Ends(text, e, needle, k)
      ensures k <= b + 1
    {
      if k > 0 {
        EndsNext(text, i, needle, k);
        if k - 1 < j {
          ShorterEnds(text, i, needle, j, k - 1);
        }
      }
    }
  }

  /** When the loop stops at a candidate, extending it by the character if that fits gives the
      longest prefix that ends one further on. */
  lemma Extend(text: string, i: nat, needle: string, j: nat, limit: nat)
    requires Candidate(text, i, needle, j, limit) && j < |needle|
    requires j == 0 || text[i] == needle[j]
    ensures var j' := if text[i] == needle[j] then j + 1 else j;
            Ends(text, i + 1, needle, j') && NoneLonger(text, i + 1, needle, j', limit)
  {
    EndsNext(text, i, needle, j + 1);
  }

  /** Entry x is the longest border of the first x + 1 characters. */
  ghost predicate BorderTable(needle: string, table: seq<nat>) {
    |table| <= |needle| && forall x | 0 <= x < |table| :: LongestBorder(needle, x + 1, table[x])
  }

  lemma TableEntry(needle: string, table: seq<nat>, j: nat)
    requires BorderTable(needle, table) && 0 < j <= |table|
    ensures LongestBorder(needle, j, table[j - 1])
  {
    var x := j - 1;
    assert LongestBorder(needle, x + 1, table[x]);
  }

  lemma TableGrows(needle: string, table: seq<nat>, b: nat)
    requires BorderTable(needle, table) && |table| < |needle| && LongestBorder(needle, |table| + 1, b)
    ensures BorderTable(needle, table + [b])
  {
  }

  /** The table of `get_next`. `work` counts the turns of the inner loop. */
  method GetNext(needle: string) returns (next: array<nat>, ghost work: nat)
    requires needle != ""
    ensures fresh(next) && next.Length == |needle| && BorderTable(needle, next[..])
    ensures work <= |needle|
  {
    hide BorderTable, LongestBorder, Candidate;
    next := new nat[|needle|];
    work := 0;
    next[0] := 0;
    FirstEntry(needle);
    assert next[..1] == [0];
    if |needle| <= 1 {
      assert next[..1] == next[..];
      return;
    }
    var j: nat := 0;
    for i := 1 to |needle|
      invariant j == next[i - 1] && j < i && work + j <= i
      invariant BorderTable(needle, next[..i])
    {
      TableEntry(needle, next[..i], i);
      OneFurther(needle, i, j);
      while j > 0 && needle[i] != needle[j]
        invariant j < i && work + j <= i && BorderTable(needle, next[..i])
        invariant Candidate(needle, i, needle, j, i + 1)
      {
        TableEntry(needle, next[..i], j);
        FallBack(needle, i, needle, j, next[j - 1], i + 1);
        j := next[j - 1];
        work := work + 1;
      }
      Extend(needle, i, needle, j, i + 1);
      if needle[i] == needle[j] {
        j := j + 1;
      }
      ExtendedIsLongest(needle, i, j);
      TableGrows(needle, next[..i], j);
      next[i] := j;
      assert next[..i + 1] == next[..i] + [j];
    }
    assert next[..|needle|] == next[..];
  }

  lemma FirstEntry(needle: string)
    requires needle != ""
    ensures BorderTable(needle, [0])
  {
    assert LongestBorder(needle, 0 + 1, 0);
  }

  lemma ExtendedIsLongest(needle: string, i: nat, j: nat)
    requires i < |needle| && j <= i
    requires Ends(needle, i + 1, needle, j) && NoneLonger(needle, i + 1, needle, j, i + 1)
    ensures LongestBorder(needle, i + 1, j)
  {
  }

  lemma OneFurther(needle: string, i: nat, j: nat)
    requires 0 < i < |needle| && LongestBorder(needle, i, j)
    ensures Candidate(needle, i, needle, j, i + 1)
  {
    var e := i + 1;
    forall k: nat | k < e && Ends(needle, e, needle, k)
      ensures k <= j + 1
    {
      if k > 0 {
        EndsNext(needle, i, needle, k);
        assert Border(needle, i, k - 1);
      }
    }
  }

  /** Before character `i`: `j` is the longest prefix that ends there and the whole needle has not
      ended anywhere. */
  ghost predicate Scanned(buf: string, i: nat, needle: string, j: nat) {
    && Ends(buf, i, needle, j) && j < |needle|
    && NoneLonger(buf, i, needle, j, |needle| + 1)
    && (forall e: nat | e <= i :: !Ends(buf, e, needle, |needle|))
  }

  lemma ScanOneFurther(buf: string, i: nat, needle: string, j: nat)
    requires i < |buf| && Scanned(buf, i, needle, j)
    ensures Candidate(buf, i, needle, j, |needle| + 1)
  {
    var e := i + 1;
    forall k: nat | k < |needle| + 1 && Ends(buf, e, needle, k)
      ensures k <= j + 1
    {
      if k > 0 {
        EndsNext(buf, i, needle, k);
      }
    }
  }

  /** The first position of the needle, or -1 when it does not occur. */
  ghost predicate FirstOccurrence(buf: string, needle: string, pos: int) {
    if pos < 0 then pos == -1 && forall p: nat :: !Occurs(buf, needle, p)
    else Occurs(buf, needle, pos) && forall p: nat | p < pos :: !Occurs(buf, needle, p)
  }

  method MyKmp(buf: string, needle: string) returns (pos: int, ghost work: nat)
    requires needle != ""
    ensures FirstOccurrence(buf, needle, pos)
    ensures work <= |buf|
  {
    hide BorderTable, LongestBorder, Candidate, FirstOccurrence;
    var next, _ := GetNext(needle);
    var j: nat := 0;
    work := 0;
    for i := 0 to |buf|
      invariant Scanned(buf, i, needle, j) && work + j <= i && BorderTable(needle, next[..])
    {
      ScanOneFurther(buf, i, needle, j);
      while j > 0 && buf[i] != needle[j]
        invariant j < |needle| && work + j <= i && BorderTable(needle, next[..])
        invariant Candidate(buf, i, needle, j, |needle| + 1)
      {
        TableEntry(needle, next[..], j);
        FallBack(buf, i, needle, j, next[j - 1], |needle| + 1);
        j := next[j - 1];
        work := work + 1;
      }
      Extend(buf, i, needle, j, |needle| + 1);
      if buf[i] == needle[j] {
        j := j + 1;
      }
      if j == |needle| {
        EarlierEnds(buf, i, needle);
        return i - |needle| + 1, work;
      }
      ScannedNext(buf, i, needle, j);
    }
    NoEnds(buf, needle);
    return -1, work;
  }

  lemma ScannedNext(buf: string, i: nat, needle: string, j: nat)
    requires i < |buf| && j < |needle| && forall e: nat | e <= i :: !Ends(buf, e, needle, |needle|)
    requires Ends(buf, i + 1, needle, j) && NoneLonger(buf, i + 1, needle, j, |needle| + 1)
    ensures Scanned(buf, i + 1, needle, j)
  {
  }

  lemma EarlierEnds(buf: string, i: nat, needle: string)
    requires i < |buf| && Ends(buf, i + 1, needle, |needle|)
    requires forall e: nat | e <= i :: !Ends(buf, e, needle, |needle|)
    ensures FirstOccurrence(buf, needle, i + 1 - |needle|)
  {
    OccursWhereItEnds(buf, needle, i + 1);
    forall p: nat | p < i + 1 - |needle|
      ensures !Occurs(buf, needle, p)
    {
      OccursWhereItEnds(buf, needle, p + |needle|);
    }
  }

  lemma NoEnds(buf: string, needle: string)
    requires forall e: nat | e <= |buf| :: !Ends(buf, e, needle, |needle|)
    ensures FirstOccurrence(buf, needle, -1)
  {
    forall p: nat | p + |needle| <= |buf|
      ensures !Occurs(buf, needle, p)
    {
      OccursWhereItEnds(buf, needle, p + |needle|);
    }
  }
}
