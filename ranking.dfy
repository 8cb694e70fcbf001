/**
 * The two reports: rows of (name, score) sorted by the key (-score, name),
 * cut after the first k and numbered from 1. The inbound-link report scores
 * a page by the length of its inlink list, the rank report by its rank.
 */
module Ranking {
  import opened LinkIds

  datatype Row = Row(name: string, score: real)

  /** One written line: the page name, its 1-based position and its score. */
  datatype Ranked = Ranked(name: string, position: nat, score: real)

  /** Python's `<` on `str`: code points left to right, a proper prefix first. */
  predicate NameLess(a: string, b: string)
    decreases |a|
  {
    if |b| == 0 then false
    else if |a| == 0 then true
    else if a[0] != b[0] then a[0] < b[0]
    else NameLess(a[1..], b[1..])
  }

  lemma {:induction false} NameLessIrreflexive(a: string)
    ensures !NameLess(a, a)
    decreases |a|
  {
    if |a| > 0 {
      NameLessIrreflexive(a[1..]);
    }
  }

  lemma {:induction false} NameLessTransitive(a: string, b: string, c: string)
    requires NameLess(a, b) && NameLess(b, c)
    ensures NameLess(a, c)
    decreases |a|
  {
    if |a| > 0 && a[0] == b[0] && b[0] == c[0] {
      NameLessTransitive(a[1..], b[1..], c[1..]);
    }
  }

  /** Two different names are ordered one way or the other, and never both. */
  lemma {:induction false} NameLessTotal(a: string, b: string)
    requires a != b
    ensures NameLess(a, b) != NameLess(b, a)
    decreases |a|
  {
    if |a| > 0 && |b| > 0 && a[0] == b[0] {
      assert a == [a[0]] + a[1..] && b == [b[0]] + b[1..];
      NameLessTotal(a[1..], b[1..]);
    }
  }

  /** `a` sorts strictly before `b` under the key (-score, name). */
  predicate Before(a: Row, b: Row)
  {
    a.score > b.score || (a.score == b.score && NameLess(a.name, b.name))
  }

  lemma BeforeTransitive(a: Row, b: Row, c: Row)
    requires Before(a, b) && Before(b, c)
    ensures Before(a, c)
  {
    if a.score == b.score == c.score {
      NameLessTransitive(a.name, b.name, c.name);
    }
  }

  /** Rows with different names are strictly ordered one way or the other. */
  lemma BeforeTotal(a: Row, b: Row)
    requires a.name != b.name
    ensures Before(a, b) != Before(b, a)
  {
    NameLessTotal(a.name, b.name);
  }

  lemma BeforeIrreflexive(a: Row)
    ensures !Before(a, a)
  {
    NameLessIrreflexive(a.name);
  }

  predicate Sorted(rows: seq<Row>)
  {
    forall i, j :: 0 <= i < j < |rows| ==> !Before(rows[j], rows[i])
  }

  predicate DistinctNames(rows: seq<Row>)
  {
    forall i, j :: 0 <= i < j < |rows| ==> rows[i].name != rows[j].name
  }

  /** `r` placed after every row that does not sort after it. */
  function Insert(r: Row, rows: seq<Row>): (res: seq<Row>)
    ensures |res| == |rows| + 1
  {
    if rows == [] then [r]
    else if Before(r, rows[0]) then [r] + rows
    else [rows[0]] + Insert(r, rows[1..])
  }

  lemma {:induction false} InsertPermutes(r: Row, rows: seq<Row>)
    ensures multiset(Insert(r, rows)) == multiset(rows) + multiset{r}
  {
    if rows != [] && !Before(r, rows[0]) {
      InsertPermutes(r, rows[1..]);
      assert rows == [rows[0]] + rows[1..];
    }
  }

  lemma {:induction false} InsertSorted(r: Row, rows: seq<Row>)
    requires Sorted(rows)
    ensures Sorted(Insert(r, rows))
  {
    if rows == [] {
    } else if Before(r, rows[0]) {
      forall j | 0 <= j < |rows| ensures !Before(rows[j], r) {
        if Before(rows[j], r) {
          BeforeTransitive(rows[j], r, rows[0]);
          BeforeIrreflexive(rows[0]);
        }
      }
    } else {
      InsertSorted(r, rows[1..]);
      InsertPermutes(r, rows[1..]);
      var rest := Insert(r, rows[1..]);
      forall j | 0 <= j < |rest| ensures !Before(rest[j], rows[0]) {
        assert rest[j] in multiset(rows[1..]) + multiset{r};
      }
    }
  }

  lemma {:induction false} InsertDistinct(r: Row, rows: seq<Row>)
    requires DistinctNames(rows) && forall k :: 0 <= k < |rows| ==> rows[k].name != r.name
    ensures DistinctNames(Insert(r, rows))
  {
    if rows != [] && !Before(r, rows[0]) {
      InsertDistinct(r, rows[1..]);
      InsertPermutes(r, rows[1..]);
      var rest := Insert(r, rows[1..]);
      forall j | 0 <= j < |rest| ensures rest[j].name != rows[0].name {
        assert rest[j] in multiset(rows[1..]) + multiset{r};
      }
    }
  }

  /** `sorted(rows, key=lambda x: (-x.score, x.name))`, as an insertion sort. */
  function SortRows(rows: seq<Row>): (res: seq<Row>)
    ensures |res| == |rows|
  {
    if rows == [] then [] else Insert(rows[|rows| - 1], SortRows(rows[..|rows| - 1]))
  }

  /** The sort returns a sorted permutation of its rows, and keeps names distinct. */
  lemma {:induction false} SortRowsSpec(rows: seq<Row>)
    ensures multiset(SortRows(rows)) == multiset(rows)
    ensures Sorted(SortRows(rows))
    ensures DistinctNames(rows) ==> DistinctNames(SortRows(rows))
  {
    if rows != [] {
      var front := rows[..|rows| - 1];
      var last := rows[|rows| - 1];
      assert rows == front + [last];
      SortRowsSpec(front);
      InsertPermutes(last, SortRows(front));
      InsertSorted(last, SortRows(front));
      if DistinctNames(rows) {
        forall k | 0 <= k < |SortRows(front)| ensures SortRows(front)[k].name != last.name {
          assert SortRows(front)[k] in multiset(front);
        }
        InsertDistinct(last, SortRows(front));
      }
    }
  }

  /** With distinct names a sorted sequence is strictly increasing in the key. */
  lemma StrictlySorted(rows: seq<Row>)
    requires Sorted(rows) && DistinctNames(rows)
    ensures forall i, j :: 0 <= i < j < |rows| ==> Before(rows[i], rows[j])
  {
    forall i, j | 0 <= i < j < |rows| ensures Before(rows[i], rows[j]) {
      BeforeTotal(rows[i], rows[j]);
    }
  }

  /**
   * The sorted order is determined by the rows alone: two sorted
   * arrangements of the same rows with distinct names are equal.
   */
  lemma {:induction false} SortedUnique(a: seq<Row>, b: seq<Row>)
    requires Sorted(a) && Sorted(b) && multiset(a) == multiset(b) && DistinctNames(a)
    ensures a == b
  {
    assert |b| == |multiset(b)| == |multiset(a)| == |a|;
    if a != [] {
      SameFirst(a, b);
      SortedTails(a, b);
      SortedUnique(a[1..], b[1..]);
      assert a == [a[0]] + a[1..] && b == [b[0]] + b[1..];
    }
  }

  /** Dropping the shared first row keeps both arrangements sorted and of the same rows. */
  lemma SortedTails(a: seq<Row>, b: seq<Row>)
    requires Sorted(a) && Sorted(b) && multiset(a) == multiset(b) && DistinctNames(a)
    requires |a| > 0 && |b| > 0 && a[0] == b[0]
    ensures Sorted(a[1..]) && Sorted(b[1..]) && DistinctNames(a[1..])
    ensures multiset(a[1..]) == multiset(b[1..])
  {
    TailMultiset(a);
    TailMultiset(b);
    SortedTail(a);
    SortedTail(b);
  }

  lemma SortedTail(s: seq<Row>)
    requires |s| > 0 && Sorted(s)
    ensures Sorted(s[1..]) && (DistinctNames(s) ==> DistinctNames(s[1..]))
  {
    assert forall i :: 0 <= i < |s| - 1 ==> s[1..][i] == s[i + 1];
  }

  lemma TailMultiset(s: seq<Row>)
    requires |s| > 0
    ensures multiset(s[1..]) == multiset(s) - multiset{s[0]}
  {
    assert s == [s[0]] + s[1..];
  }

  /** Both arrangements start with the least row. */
  lemma SameFirst(a: seq<Row>, b: seq<Row>)
    requires Sorted(a) && Sorted(b) && multiset(a) == multiset(b) && DistinctNames(a)
    requires |a| > 0 && |b| > 0
    ensures a[0] == b[0]
  {
    assert a[0] in multiset(b) && b[0] in multiset(a);
    var i :| 0 <= i < |a| && a[i] == b[0];
    var j :| 0 <= j < |b| && b[j] == a[0];
    if i != 0 {
      assert a[0].name != b[0].name;
      assert !Before(b[0], a[0]);
      if j != 0 {
        assert !Before(a[0], b[0]);
        BeforeTotal(a[0], b[0]);
      }
    }
  }

  /** How many of `n` sorted rows a report cut after `k` keeps. */
  function Kept(k: int, n: nat): nat
  {
    if k <= 0 then 0 else if k < n then k else n
  }

  /** The lines written: the first `k` sorted rows, numbered from 1. */
  function TopK(sorted: seq<Row>, k: int): (out: seq<Ranked>)
    ensures |out| == Kept(k, |sorted|)
  {
    seq(Kept(k, |sorted|), i requires 0 <= i < Kept(k, |sorted|) => Ranked(sorted[i].name, i + 1, sorted[i].score))
  }

  /** A report: the rows sorted by (-score, name), the first `k` of them numbered from 1. */
  function Report(rows: seq<Row>, k: int): seq<Ranked>
  {
    TopK(SortRows(rows), k)
  }

  function AsRow(x: Ranked): Row
  {
    Row(x.name, x.score)
  }

  /**
   * The writing loop of `write_inlinks` and `write_pr`: walk the sorted rows
   * with their index, stop once the index reaches `k`, and emit each row
   * before that with its 1-based position.
   */
  method WriteTop(sorted: seq<Row>, k: int) returns (out: seq<Ranked>)
    ensures out == TopK(sorted, k)
    ensures k <= 0 ==> out == []
    ensures 0 < k <= |sorted| ==> |out| == k
    ensures k > |sorted| ==> |out| == |sorted|
    ensures forall i :: 0 <= i < |out| ==> out[i] == Ranked(sorted[i].name, i + 1, sorted[i].score)
  {
    out := [];
    var i := 0;
    while i < |sorted|
      invariant i <= |sorted| && i <= Kept(k, |sorted|) && |out| == i
      invariant forall j :: 0 <= j < i ==> out[j] == Ranked(sorted[j].name, j + 1, sorted[j].score)
    {
      if i >= k {
        break;
      }
      out := out + [Ranked(sorted[i].name, i + 1, sorted[i].score)];
      i := i + 1;
    }
    assert i == Kept(k, |sorted|);
  }

  /** A whole report: sort the rows, then write the first `k` of them. */
  method WriteReport(rows: seq<Row>, k: int) returns (out: seq<Ranked>)
    ensures out == Report(rows, k)
  {
    var sorted := SortRows(rows);
    out := WriteTop(sorted, k);
  }

  /**
   * A report has min(k, n) lines (none when k <= 0) at positions 1, 2, ...,
   * and each line is one of the input rows.
   */
  lemma ReportLines(rows: seq<Row>, k: int)
    ensures k <= 0 ==> |Report(rows, k)| == 0
    ensures 0 < k <= |rows| ==> |Report(rows, k)| == k
    ensures k > |rows| ==> |Report(rows, k)| == |rows|
    ensures forall i :: 0 <= i < |Report(rows, k)| ==>
      Report(rows, k)[i].position == i + 1 && AsRow(Report(rows, k)[i]) in rows
  {
    var sorted := SortRows(rows);
    SortRowsSpec(rows);
    forall i | 0 <= i < |Report(rows, k)| ensures AsRow(Report(rows, k)[i]) in rows {
      assert AsRow(Report(rows, k)[i]) == sorted[i];
      assert sorted[i] in multiset(rows);
    }
  }

  /** With distinct names the lines are in strictly increasing (-score, name) order. */
  lemma ReportOrdered(rows: seq<Row>, k: int)
    requires DistinctNames(rows)
    ensures forall i, j :: 0 <= i < j < |Report(rows, k)| ==> Before(AsRow(Report(rows, k)[i]), AsRow(Report(rows, k)[j]))
  {
    SortRowsSpec(rows);
    StrictlySorted(SortRows(rows));
  }

  /** Every input row is either written or sorts after every row written. */
  lemma ReportIsTop(rows: seq<Row>, k: int)
    requires DistinctNames(rows)
    ensures forall r :: r in rows ==>
      (exists i :: 0 <= i < |Report(rows, k)| && AsRow(Report(rows, k)[i]) == r) ||
      (forall i :: 0 <= i < |Report(rows, k)| ==> Before(AsRow(Report(rows, k)[i]), r))
  {
    var sorted := SortRows(rows);
    var out := Report(rows, k);
    SortRowsSpec(rows);
    StrictlySorted(sorted);
    forall r | r in rows
      ensures (exists i :: 0 <= i < |out| && AsRow(out[i]) == r) || (forall i :: 0 <= i < |out| ==> Before(AsRow(out[i]), r))
    {
      assert r in multiset(sorted);
      var p :| 0 <= p < |sorted| && sorted[p] == r;
      if p < |out| {
        assert AsRow(out[p]) == r;
      } else {
        forall i | 0 <= i < |out| ensures Before(AsRow(out[i]), r) {
          assert AsRow(out[i]) == sorted[i];
        }
      }
    }
  }

  /** `ReportIsTop` for the report `out` of rows given as names and scores side by side. */
  lemma ReportIsTopOf(rows: seq<Row>, k: int, out: seq<Ranked>, names: seq<string>, scores: seq<real>)
    requires DistinctNames(rows) && |rows| == |scores| <= |names| && out == Report(rows, k)
    requires forall v :: 0 <= v < |rows| ==> rows[v] == Row(names[v], scores[v])
    ensures forall v :: 0 <= v < |scores| ==>
      (exists i :: 0 <= i < |out| && AsRow(out[i]) == Row(names[v], scores[v])) ||
      (forall i :: 0 <= i < |out| ==> Before(AsRow(out[i]), Row(names[v], scores[v])))
  {
    ReportIsTop(rows, k);
    forall v | 0 <= v < |scores| ensures Row(names[v], scores[v]) in rows {
      assert rows[v] == Row(names[v], scores[v]);
    }
  }

  /** Every report line is one of the input rows. */
  lemma ReportMembers(rows: seq<Row>, k: int)
    ensures forall x :: x in Report(rows, k) ==> AsRow(x) in rows
  {
    ReportLines(rows, k);
    forall x | x in Report(rows, k) ensures AsRow(x) in rows {
      var i :| 0 <= i < |Report(rows, k)| && Report(rows, k)[i] == x;
    }
  }

  /** The rows of `write_inlinks`: every page with its name and the length of its inlink list. */
  function InlinkRows(inlinks: seq<seq<nat>>, idName: map<nat, string>): (rows: seq<Row>)
    requires forall page :: 0 <= page < |inlinks| ==> page in idName
    ensures |rows| == |inlinks|
  {
    seq(|inlinks|, page requires 0 <= page < |inlinks| => Row(idName[page], |inlinks[page]| as real))
  }

  /** The rows of `write_pr`: every page with its name and its rank. */
  function RankRows(pr: seq<real>, idName: map<nat, string>): (rows: seq<Row>)
    requires forall page :: 0 <= page < |pr| ==> page in idName
    ensures |rows| == |pr|
  {
    seq(|pr|, page requires 0 <= page < |pr| => Row(idName[page], pr[page]))
  }

  /** The names come from the reverse of a valid id table, so the rows of either report have distinct names. */
  lemma RowsDistinct(t: LinkIds, scores: seq<real>)
    requires t.Valid() && |scores| == |t.names|
    ensures forall page :: 0 <= page < |scores| ==> page in ReverseNameId(t)
    ensures DistinctNames(RankRows(scores, ReverseNameId(t)))
  {
    var rev := ReverseNameId(t);
    DenseIds(t);
    forall page | 0 <= page < |scores| ensures page in rev && rev[page] == t.names[page] {
      assert t.ids[t.names[page]] == page;
    }
  }

  lemma InlinkRowsDistinct(t: LinkIds, inlinks: seq<seq<nat>>)
    requires t.Valid() && |inlinks| == |t.names|
    ensures forall page :: 0 <= page < |inlinks| ==> page in ReverseNameId(t)
    ensures DistinctNames(InlinkRows(inlinks, ReverseNameId(t)))
  {
    var rev := ReverseNameId(t);
    DenseIds(t);
    forall page | 0 <= page < |inlinks| ensures page in rev && rev[page] == t.names[page] {
      assert t.ids[t.names[page]] == page;
    }
  }
}
