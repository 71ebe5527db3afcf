/**
 * Diagnostics ("markers") as the navigator sees them: a severity and the start
 * of their range. The severity filter and the ascending sort by start.
 */
module Markers {
  import opened Positions

  datatype Severity = Error | Warning | Information | Hint

  datatype Diagnostic = Diagnostic(severity: Severity, start: Position)

  /** The filter both navigation commands pass. */
  const ErrorsAndWarnings: seq<Severity> := [Error, Warning]

  /** `sub` is `s` with some elements dropped, the rest kept in their order. */
  predicate IsSubsequence(sub: seq<Diagnostic>, s: seq<Diagnostic>)
    decreases |s|
  {
    if sub == [] then true
    else if s == [] then false
    else if sub[0] == s[0] then IsSubsequence(sub[1..], s[1..])
    else IsSubsequence(sub, s[1..])
  }

  /** `diagnostics.filter((d) => filter.includes(d.severity))` */
  function FilterBySeverity(ds: seq<Diagnostic>, filter: seq<Severity>): (r: seq<Diagnostic>)
    ensures |r| <= |ds|
    ensures forall d :: d in r <==> d in ds && d.severity in filter
    ensures IsSubsequence(r, ds)
    ensures forall d :: multiset(r)[d] == if d.severity in filter then multiset(ds)[d] else 0
  {
    if ds == [] then []
    else
      var rest := FilterBySeverity(ds[1..], filter);
      assert ds == [ds[0]] + ds[1..];
      assert forall d :: d in ds <==> d == ds[0] || d in ds[1..];
      if ds[0].severity in filter then
        assert ([ds[0]] + rest)[1..] == rest;
        [ds[0]] + rest
      else
        assert rest != [] ==> rest[0] in rest && rest[0] != ds[0];
        rest
  }

  /** Ascending by start: no diagnostic starts before one at a smaller index. */
  predicate SortedByStart(s: seq<Diagnostic>) {
    forall i, j :: 0 <= i < j < |s| ==> Compare(s[i].start, s[j].start) <= 0
  }

  /** `x` starts no later than any diagnostic of `s`. */
  predicate StartsNoLaterThanAll(x: Diagnostic, s: seq<Diagnostic>) {
    forall k :: 0 <= k < |s| ==> Compare(x.start, s[k].start) <= 0
  }

  /** A sorted list with a lower bound in front of it is still sorted. */
  lemma PrependSorted(x: Diagnostic, s: seq<Diagnostic>)
    requires SortedByStart(s) && StartsNoLaterThanAll(x, s)
    ensures SortedByStart([x] + s)
  {
    var r := [x] + s;
    forall i, j | 0 <= i < j < |r| ensures Compare(r[i].start, r[j].start) <= 0 {
      assert r[j] == s[j - 1];
      if i > 0 {
        assert r[i] == s[i - 1];
      }
    }
  }

  /**
   * Inserts `d` in front of the first diagnostic of `s` that does not start
   * before it, so that equal starts keep their original order.
   */
  function Insert(d: Diagnostic, s: seq<Diagnostic>): (r: seq<Diagnostic>)
    ensures |r| == |s| + 1
    ensures multiset(r) == multiset(s) + multiset{d}
  {
    if s == [] || Compare(s[0].start, d.start) >= 0 then
      [d] + s
    else
      assert s == [s[0]] + s[1..];
      [s[0]] + Insert(d, s[1..])
  }

  /** Inserting into a sorted list keeps it sorted. */
  lemma {:induction false} InsertSorted(d: Diagnostic, s: seq<Diagnostic>)
    requires SortedByStart(s)
    ensures SortedByStart(Insert(d, s))
  {
    if s == [] || Compare(s[0].start, d.start) >= 0 {
      forall k | 0 <= k < |s| ensures Compare(d.start, s[k].start) <= 0 {
        if k > 0 {
          assert Compare(s[0].start, s[k].start) <= 0;
          CompareTransitive(d.start, s[0].start, s[k].start);
        }
      }
      PrependSorted(d, s);
    } else {
      var tail := s[1..];
      assert SortedByStart(tail) by {
        forall i, j | 0 <= i < j < |tail| ensures Compare(tail[i].start, tail[j].start) <= 0 {
          assert tail[i] == s[i + 1] && tail[j] == s[j + 1];
        }
      }
      InsertSorted(d, tail);
      var rest := Insert(d, tail);
      forall k | 0 <= k < |rest| ensures Compare(s[0].start, rest[k].start) <= 0 {
        assert rest[k] in multiset(rest);
        if rest[k] != d {
          assert rest[k] in multiset(tail);
          var m :| 0 <= m < |tail| && tail[m] == rest[k];
          assert tail[m] == s[m + 1];
        }
      }
      PrependSorted(s[0], rest);
    }
  }

  /**
   * `getMarkersSorted`: the diagnostics ordered ascending by start with the
   * comparator `Compare`, as a stable insertion sort.
   */
  function SortByStart(s: seq<Diagnostic>): (r: seq<Diagnostic>)
    ensures |r| == |s|
    ensures SortedByStart(r)
    ensures multiset(r) == multiset(s)
  {
    if s == [] then []
    else
      assert s == [s[0]] + s[1..];
      var rest := SortByStart(s[1..]);
      InsertSorted(s[0], rest);
      Insert(s[0], rest)
  }

  /** The first diagnostic of the sorted list starts no later than any diagnostic of the input. */
  lemma {:induction false} SortedFirstIsEarliest(s: seq<Diagnostic>)
    requires |s| > 0
    ensures |SortByStart(s)| == |s|
    ensures SortByStart(s)[0] in s
    ensures forall d :: d in s ==> IsBeforeOrEqual(SortByStart(s)[0].start, d.start)
  {
    var r := SortByStart(s);
    assert r[0] in multiset(r);
    forall d | d in s ensures IsBeforeOrEqual(r[0].start, d.start) {
      assert d in multiset(r);
      var k :| 0 <= k < |r| && r[k] == d;
      if k > 0 { assert Compare(r[0].start, r[k].start) <= 0; }
    }
  }

  /** The last diagnostic of the sorted list starts no earlier than any diagnostic of the input. */
  lemma {:induction false} SortedLastIsLatest(s: seq<Diagnostic>)
    requires |s| > 0
    ensures |SortByStart(s)| == |s|
    ensures SortByStart(s)[|s| - 1] in s
    ensures forall d :: d in s ==> IsAfterOrEqual(SortByStart(s)[|s| - 1].start, d.start)
  {
    var r := SortByStart(s);
    assert r[|s| - 1] in multiset(r);
    forall d | d in s ensures IsAfterOrEqual(r[|s| - 1].start, d.start) {
      assert d in multiset(r);
      var k :| 0 <= k < |r| && r[k] == d;
      if k < |s| - 1 { assert Compare(r[k].start, r[|s| - 1].start) <= 0; }
    }
  }
}
