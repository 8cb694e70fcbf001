/**
 * The fixed-count driver: intern the names, build the three tables, run
 * the rank step a fixed number of times from the uniform vector, and produce
 * the two reports.
 */
module PageRank {
  import opened Wrappers
  import opened LinkIds
  import opened Tables
  import opened Rank
  import opened Mass
  import opened Ranking

  datatype Error = Load(cause: LoadError) | ZeroDivision

  /** The lines of the inbound-link report and of the rank report. */
  datatype Reports = Reports(inlinkLines: seq<Ranked>, rankLines: seq<Ranked>)

  /** Each name mapped to its position in `names`. */
  function IdMap(names: seq<string>): (ids: map<string, nat>)
    ensures forall s :: s in ids <==> s in names
    ensures Distinct(names) ==> forall i :: 0 <= i < |names| ==> ids[names[i]] == i
  {
    if names == [] then map[]
    else
      var front := names[..|names| - 1];
      assert forall s :: s in names <==> s in front || s == names[|names| - 1] by {
        assert names == front + [names[|names| - 1]];
      }
      IdMap(front)[names[|names| - 1] := |names| - 1]
  }

  /** The name table the input determines: first-seen names, each with its position as id. */
  function NameTable(lines: seq<Line>): (t: LinkIds)
    requires WellFormed(lines)
    ensures t.Valid() && t.names == FirstSeen(lines)
  {
    FirstSeenOrder(lines);
    LinkIds(IdMap(FirstSeen(lines)), FirstSeen(lines))
  }

  /** A valid table is determined by its names. */
  lemma TableUnique(t1: LinkIds, t2: LinkIds)
    requires t1.Valid() && t2.Valid() && t1.names == t2.names
    ensures t1 == t2
  {
    forall s | s in t1.ids ensures s in t2.ids && t2.ids[s] == t1.ids[s] {
      assert t2.ids[t1.names[t1.ids[s]]] == t1.ids[s];
    }
    forall s | s in t2.ids ensures s in t1.ids {
      assert t1.ids[t2.names[t2.ids[s]]] == t2.ids[s];
    }
    assert t1.ids == t2.ids;
  }

  /** Every name on every line has an id. */
  lemma LinesKnown(lines: seq<Line>)
    requires WellFormed(lines)
    ensures EdgesKnown(lines, NameTable(lines).ids) && SourcesKnown(lines, NameTable(lines).ids)
  {
    LineNamesSeen(lines);
  }

  /** The table is empty exactly when the input has no lines. */
  lemma NoNamesNoLines(lines: seq<Line>)
    requires WellFormed(lines)
    ensures (|FirstSeen(lines)| == 0) == (|lines| == 0)
  {
    LineNamesSeen(lines);
    if |lines| > 0 {
      assert lines[0][0] in FirstSeen(lines);
    }
  }

  /** The rank vector the loop leaves: empty without iterations, else the iterate from the uniform vector. */
  function Ranks(lines: seq<Line>, lamb: real, iterations: int): (pr: seq<real>)
    requires WellFormed(lines) && !(iterations > 0 && |lines| == 0)
    ensures iterations <= 0 ==> pr == []
    ensures iterations > 0 ==> |pr| == |NameTable(lines).names|
  {
    if iterations <= 0 then []
    else
      var t := NameTable(lines);
      LinesKnown(lines);
      NoNamesNoLines(lines);
      var outlinks := Outdegrees(lines, |lines|, t);
      var inlinks := Inlinks(lines, |lines|, t);
      var noOutlinks := NoOutlinks(outlinks, |t.names|);
      BuiltTablesConsistent(lines, t);
      ConsistentSafe(inlinks, outlinks, noOutlinks);
      Iterate(inlinks, outlinks, noOutlinks, Uniform(|outlinks|), lamb, iterations)
  }

  /** The inbound-link report the input determines, cut after `k` lines. */
  function InlinkReport(lines: seq<Line>, k: int): seq<Ranked>
    requires WellFormed(lines)
  {
    LinesKnown(lines);
    InlinkRowsDistinct(NameTable(lines), Inlinks(lines, |lines|, NameTable(lines)));
    Report(InlinkRows(Inlinks(lines, |lines|, NameTable(lines)), ReverseNameId(NameTable(lines))), k)
  }

  /** The rank report for the rank vector `pr` over the input's names, cut after `k` lines. */
  function RankReport(lines: seq<Line>, pr: seq<real>, k: int): seq<Ranked>
    requires WellFormed(lines) && |pr| <= |FirstSeen(lines)|
  {
    ReverseIsNames(NameTable(lines));
    Report(RankRows(pr, ReverseNameId(NameTable(lines))), k)
  }

  /**
   * `do_pagerank_n_times` without the file reading and writing: a line with
   * fewer than two tokens stops it, an empty input fails at `1 / BIG_N` once
   * an iteration runs, and otherwise it yields the two reports.
   */
  method PageRankNTimes(lines: seq<Line>, lamb: real, iterations: int, k: int) returns (r: Result<Reports, Error>)
    ensures !WellFormed(lines) ==> r == Err(Load(MissingToken(FirstMalformed(lines))))
    ensures WellFormed(lines) && iterations > 0 && |lines| == 0 ==> r == Err(Error.ZeroDivision)
    ensures WellFormed(lines) && !(iterations > 0 && |lines| == 0) ==> r == Ok(Reports(InlinkReport(lines, k), RankReport(lines, Ranks(lines, lamb, iterations), k)))
  {
    var linkids := CreateLinkIds(lines);
    if linkids.Err? {
      return Err(Load(linkids.error));
    }
    var t := linkids.value;
    TableUnique(t, NameTable(lines));
    LinesKnown(lines);
    NoNamesNoLines(lines);
    var idNames := ReverseNameId(t);
    var outlinks := CreateOutlinks(lines, t);
    var noOutlinks := GetNoOutlinks(outlinks);
    var inlinks := CreateInlinks(lines, t);
    BuiltTablesConsistent(lines, t);
    ConsistentSafe(inlinks, outlinks, noOutlinks);
    var pr := RunNTimes(inlinks, outlinks, noOutlinks, lamb, iterations);
    if pr.Err? {
      return Err(Error.ZeroDivision);
    }
    ReverseIsNames(t);
    var inlinkLines := WriteReport(InlinkRows(inlinks, idNames), k);
    var rankLines := WriteReport(RankRows(pr.value, idNames), k);
    return Ok(Reports(inlinkLines, rankLines));
  }

  /** Tokens after the second on a line leave the name table unchanged. */
  lemma NameTableSameEdges(a: seq<Line>, b: seq<Line>)
    requires SameEdges(a, b)
    ensures NameTable(a) == NameTable(b)
  {
    ExtraTokensIgnored(a, b);
  }

  /** Tokens after the second on a line leave the rank vector unchanged. */
  lemma RanksSameEdges(a: seq<Line>, b: seq<Line>, lamb: real, iterations: int)
    requires SameEdges(a, b) && !(iterations > 0 && |a| == 0)
    ensures Ranks(a, lamb, iterations) == Ranks(b, lamb, iterations)
  {
    NameTableSameEdges(a, b);
    LinesKnown(a);
    TablesSameEdges(a, b, NameTable(a));
  }

  /**
   * Tokens after the second on a line change nothing: the name table, the
   * inbound-link report, the ranks and the rank report are those of the
   * input with every line cut to its source and target.
   */
  lemma PipelineSameEdges(a: seq<Line>, b: seq<Line>, lamb: real, iterations: int, k: int)
    requires SameEdges(a, b)
    ensures NameTable(a) == NameTable(b)
    ensures InlinkReport(a, k) == InlinkReport(b, k)
    ensures !(iterations > 0 && |a| == 0) ==>
      Ranks(a, lamb, iterations) == Ranks(b, lamb, iterations) &&
      RankReport(a, Ranks(a, lamb, iterations), k) == RankReport(b, Ranks(b, lamb, iterations), k)
  {
    NameTableSameEdges(a, b);
    LinesKnown(a);
    TablesSameEdges(a, b, NameTable(a));
    if !(iterations > 0 && |a| == 0) {
      RanksSameEdges(a, b, lamb, iterations);
    }
  }

  /** The tables built from well-formed lines are consistent, with one entry per name. */
  lemma BuiltConsistent(lines: seq<Line>)
    requires WellFormed(lines)
    ensures EdgesKnown(lines, NameTable(lines).ids)
    ensures Consistent(Inlinks(lines, |lines|, NameTable(lines)), Outdegrees(lines, |lines|, NameTable(lines)),
                       NoOutlinks(Outdegrees(lines, |lines|, NameTable(lines)), |NameTable(lines).names|))
    ensures |Outdegrees(lines, |lines|, NameTable(lines))| == |FirstSeen(lines)|
    ensures (|FirstSeen(lines)| == 0) == (|lines| == 0)
  {
    LinesKnown(lines);
    NoNamesNoLines(lines);
    BuiltTablesConsistent(lines, NameTable(lines));
  }

  /** After at least one iteration the ranks add up to 1. */
  lemma RanksSumToOne(lines: seq<Line>, lamb: real, iterations: int)
    requires WellFormed(lines) && iterations > 0 && |lines| > 0
    ensures Sum(Ranks(lines, lamb, iterations)) == 1.0
  {
    BuiltConsistent(lines);
    UniformMass(|FirstSeen(lines)|);
    IterateMass(Inlinks(lines, |lines|, NameTable(lines)), Outdegrees(lines, |lines|, NameTable(lines)),
                NoOutlinks(Outdegrees(lines, |lines|, NameTable(lines)), |NameTable(lines).names|),
                Uniform(|FirstSeen(lines)|), lamb, iterations);
  }

  /** After at least one iteration, with 0 <= lamb <= 1, every rank is at least lamb / n. */
  lemma RanksAboveTeleport(lines: seq<Line>, lamb: real, iterations: int)
    requires WellFormed(lines) && iterations > 0 && |lines| > 0 && 0.0 <= lamb <= 1.0
    ensures forall v :: 0 <= v < |Ranks(lines, lamb, iterations)| ==>
      Ranks(lines, lamb, iterations)[v] >= lamb / (|FirstSeen(lines)| as real)
  {
    BuiltConsistent(lines);
    UniformMass(|FirstSeen(lines)|);
    ConsistentSafe(Inlinks(lines, |lines|, NameTable(lines)), Outdegrees(lines, |lines|, NameTable(lines)),
                   NoOutlinks(Outdegrees(lines, |lines|, NameTable(lines)), |NameTable(lines).names|));
    IterateBounds(Inlinks(lines, |lines|, NameTable(lines)), Outdegrees(lines, |lines|, NameTable(lines)),
                  NoOutlinks(Outdegrees(lines, |lines|, NameTable(lines)), |NameTable(lines).names|),
                  Uniform(|FirstSeen(lines)|), lamb, iterations);
  }

  /** The reverse table gives back the page's name. */
  lemma ReverseIsNames(t: LinkIds)
    requires t.Valid()
    ensures forall page :: 0 <= page < |t.names| ==> page in ReverseNameId(t) && ReverseNameId(t)[page] == t.names[page]
  {
    DenseIds(t);
    forall page | 0 <= page < |t.names|
      ensures page in ReverseNameId(t) && ReverseNameId(t)[page] == t.names[page]
    {
      assert t.ids[t.names[page]] == page;
    }
  }

  /** Each inbound-link row names a page and counts the lines that target it. */
  lemma InlinkRowsCount(lines: seq<Line>)
    requires WellFormed(lines)
    ensures EdgesKnown(lines, NameTable(lines).ids)
    ensures forall page :: 0 <= page < |NameTable(lines).names| ==> page in ReverseNameId(NameTable(lines))
    ensures forall row :: row in InlinkRows(Inlinks(lines, |lines|, NameTable(lines)), ReverseNameId(NameTable(lines))) ==>
      row.name in FirstSeen(lines) && row.score == InCount(lines, |lines|, row.name) as real
  {
    var t := NameTable(lines);
    LinesKnown(lines);
    ReverseIsNames(t);
    var rows := InlinkRows(Inlinks(lines, |lines|, t), ReverseNameId(t));
    forall page | 0 <= page < |rows|
      ensures rows[page].name in FirstSeen(lines) && rows[page].score == InCount(lines, |lines|, rows[page].name) as real
    {
      InSourcesLength(lines, |lines|, t.ids, t.names[page]);
    }
  }

  /**
   * Each line of the inbound-link report names a page and gives, as its
   * score, the number of input lines whose target is that page.
   */
  lemma InlinkReportCounts(lines: seq<Line>, k: int)
    requires WellFormed(lines)
    ensures forall x :: x in InlinkReport(lines, k) ==>
      x.name in FirstSeen(lines) && x.score == InCount(lines, |lines|, x.name) as real
  {
    InlinkRowsCount(lines);
    ReportMembers(InlinkRows(Inlinks(lines, |lines|, NameTable(lines)), ReverseNameId(NameTable(lines))), k);
  }

  /** Each page's score in the inbound-link report: the number of lines that target it. */
  function InlinkScores(lines: seq<Line>): (scores: seq<real>)
    requires WellFormed(lines)
    ensures |scores| == |FirstSeen(lines)|
  {
    seq(|FirstSeen(lines)|, v requires 0 <= v < |FirstSeen(lines)| => InCount(lines, |lines|, FirstSeen(lines)[v]) as real)
  }

  /** The inbound-link rows pair each page's name with its inbound line count, and no name repeats. */
  lemma InlinkRowsArePages(lines: seq<Line>)
    requires WellFormed(lines)
    ensures EdgesKnown(lines, NameTable(lines).ids)
    ensures forall page :: 0 <= page < |NameTable(lines).names| ==> page in ReverseNameId(NameTable(lines))
    ensures DistinctNames(InlinkRows(Inlinks(lines, |lines|, NameTable(lines)), ReverseNameId(NameTable(lines))))
    ensures forall v :: 0 <= v < |FirstSeen(lines)| ==>
      InlinkRows(Inlinks(lines, |lines|, NameTable(lines)), ReverseNameId(NameTable(lines)))[v] == Row(FirstSeen(lines)[v], InlinkScores(lines)[v])
  {
    var t := NameTable(lines);
    LinesKnown(lines);
    ReverseIsNames(t);
    InlinkRowsDistinct(t, Inlinks(lines, |lines|, t));
    forall v | 0 <= v < |FirstSeen(lines)|
      ensures InlinkRows(Inlinks(lines, |lines|, t), ReverseNameId(t))[v] == Row(FirstSeen(lines)[v], InlinkScores(lines)[v])
    {
      InSourcesLength(lines, |lines|, t.ids, t.names[v]);
    }
  }

  /** The inbound-link report lists pages by falling inbound count, ties by name. */
  lemma InlinkReportOrdered(lines: seq<Line>, k: int)
    requires WellFormed(lines)
    ensures forall i, j :: 0 <= i < j < |InlinkReport(lines, k)| ==>
      Before(AsRow(InlinkReport(lines, k)[i]), AsRow(InlinkReport(lines, k)[j]))
  {
    InlinkRowsArePages(lines);
    ReportOrdered(InlinkRows(Inlinks(lines, |lines|, NameTable(lines)), ReverseNameId(NameTable(lines))), k);
  }

  /** The inbound-link report leaves out only pages that sort after every page it lists. */
  lemma InlinkReportTop(lines: seq<Line>, k: int)
    requires WellFormed(lines)
    ensures forall v :: 0 <= v < |FirstSeen(lines)| ==>
      (exists i :: 0 <= i < |InlinkReport(lines, k)| && AsRow(InlinkReport(lines, k)[i]) == Row(FirstSeen(lines)[v], InlinkScores(lines)[v])) ||
      (forall i :: 0 <= i < |InlinkReport(lines, k)| ==> Before(AsRow(InlinkReport(lines, k)[i]), Row(FirstSeen(lines)[v], InlinkScores(lines)[v])))
  {
    InlinkRowsArePages(lines);
    ReportIsTopOf(InlinkRows(Inlinks(lines, |lines|, NameTable(lines)), ReverseNameId(NameTable(lines))), k,
                  InlinkReport(lines, k), FirstSeen(lines), InlinkScores(lines));
  }

  /** The rank rows pair each page's name with its rank, and no name repeats. */
  lemma RankRowsArePages(lines: seq<Line>, pr: seq<real>)
    requires WellFormed(lines) && |pr| == |FirstSeen(lines)|
    ensures forall page :: 0 <= page < |pr| ==> page in ReverseNameId(NameTable(lines))
    ensures DistinctNames(RankRows(pr, ReverseNameId(NameTable(lines))))
    ensures forall v :: 0 <= v < |pr| ==> RankRows(pr, ReverseNameId(NameTable(lines)))[v] == Row(FirstSeen(lines)[v], pr[v])
  {
    RowsDistinct(NameTable(lines), pr);
    ReverseIsNames(NameTable(lines));
  }

  /** The rank report lists pages by falling rank, ties by name. */
  lemma RankReportOrdered(lines: seq<Line>, pr: seq<real>, k: int)
    requires WellFormed(lines) && |pr| == |FirstSeen(lines)|
    ensures forall i, j :: 0 <= i < j < |RankReport(lines, pr, k)| ==>
      Before(AsRow(RankReport(lines, pr, k)[i]), AsRow(RankReport(lines, pr, k)[j]))
  {
    RankRowsArePages(lines, pr);
    ReportOrdered(RankRows(pr, ReverseNameId(NameTable(lines))), k);
  }

  /** The rank report leaves out only pages that sort after every page it lists. */
  lemma RankReportTop(lines: seq<Line>, pr: seq<real>, k: int)
    requires WellFormed(lines) && |pr| == |FirstSeen(lines)|
    ensures forall v :: 0 <= v < |pr| ==>
      (exists i :: 0 <= i < |RankReport(lines, pr, k)| && AsRow(RankReport(lines, pr, k)[i]) == Row(FirstSeen(lines)[v], pr[v])) ||
      (forall i :: 0 <= i < |RankReport(lines, pr, k)| ==> Before(AsRow(RankReport(lines, pr, k)[i]), Row(FirstSeen(lines)[v], pr[v])))
  {
    RankRowsArePages(lines, pr);
    ReportIsTopOf(RankRows(pr, ReverseNameId(NameTable(lines))), k, RankReport(lines, pr, k), FirstSeen(lines), pr);
  }
}
