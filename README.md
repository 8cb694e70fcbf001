# PageRank over a link list, modelled in Dafny

This project models the core of `src/pagerank.py`, a small PageRank tool.
The tool reads lines of the form `source target`, one edge per line, and then:

- interns every page name as a dense integer id, in first-seen order (`create_linkids`);
- inverts that map (`get_reverse_name_id`);
- builds the outdegree table (`create_outlinks`), the inbound-neighbour lists (`create_inlinks`) and the list of dangling pages (`get_no_outlinks`);
- iterates the PageRank step a fixed number of times (`do_pagerank_n_times`, with the per-page formula `sum_inlinks`);
- writes two top-k reports that sort rows by the key (-score, name) (`write_inlinks`, `write_pr`).

Modules, in dependency order:

- `Wrappers`: the `Result` datatype.
- `LinkIds` (linkids.dfy): the token-list input, name interning and the reverse map.
  `CreateLinkIds` is an imperative loop over the lines and a map, proved against the function `FirstSeen`.
- `Tables` (tables.dfy): the outdegree, inlink and dangling tables.
  - Each is an imperative loop proved against a reference function.
  - `OutCount` and `InSources` restate each table in terms of the input lines alone.
  - Cross-table consistency is stated as `Tables.Consistent`.
- `Rank` (rank.dfy): `sum_inlinks`, the dangling mass, one step of the rank update (`Step`, a loop proved against `StepSpec`) and the fixed-count driver `RunNTimes`.
- `Mass` (mass.dfy): conservation of rank mass.
  - A step maps total mass m to `lamb + (1 - lamb) * m`.
  - So a rank vector summing to 1 keeps summing to 1, however many steps are run.
- `Ranking` (ranking.dfy): the sort by (-score, name), truncation at k and numbering from 1.
- `PageRank` (pagerank.dfy): the pipeline of `do_pagerank_n_times` as one method returning both reports, and end-to-end properties stated over the input lines.

## Modelling choices

- **Input lines.** An input line is the token list `line.split()` produces (`seq<string>`).
  - A line with fewer than two tokens makes `pair[0]` (on an empty line) or `pair[1]` fail with `IndexError`. The model returns `Err(MissingToken(i))`, where `i` is the index of the first such line.
  - Tokens after the second are ignored (`LinkIds.ExtraTokensIgnored`, `Tables.TablesSameEdges`, `PageRank.PipelineSameEdges`).
- **Dictionaries as sequences.** The dictionaries keyed by id are filled in id order 0..n-1, so every Python dict iteration here runs in id order. Each such dict is a sequence indexed by id: `linkids` is the pair (map name→id, names in id order).
- **Ranks are exact reals.** Ranks are Dafny `real`, not IEEE doubles, so sums are exact. This is an idealisation: the float program only approximates these values.
  - `prev_pr[u] / outlinks[u]`, the division of a rank by the integer outdegree, is real division.
  - `BIG_N` is `len(linkids)`, which equals the number of outdegree entries.
- **Zero iterations.** In the fixed-count driver, `next_pr` starts as an empty dict and is only written inside the loop. With zero or negative iterations, the rank report is therefore empty. A reader might expect the uniform vector 1/N here; the code returns no ranks, and the model follows the code.
- **Empty graph.**
  - With no lines and at least one iteration, `1 / BIG_N` divides by zero. The model returns `Err(ZeroDivision)`.
  - With no lines and no iterations, nothing divides. The model returns two empty reports.
  - Building `prev_pr` does not divide when there are no pages, because the comprehension body never runs.
- **k.** A non-positive `k` emits no rows: the `i >= k` test stops the loop before the first write. A `k` larger than the number of pages emits all of them.
- **Inlink report scores.** The inlink report's score is the length of the inlink list, taken as a real so both reports share one row type.
- **Order relations.** Names compare as strings, character by character, a proper prefix first. Because page names are distinct, the sort key is a strict total order on the rows. So the sorted list is unique (`Ranking.SortedUnique`), and the stability of Python's `sorted` does not matter.

## Model

| member | source | states |
|---|---|---|
| LinkIds.CreateLinkIds | src/pagerank.py:27-39 | On well-formed input, returns a valid table (the map sends names[i] to i, and only those names) whose name order is the first-seen order. Otherwise, returns MissingToken at the first line with fewer than two tokens. |
| LinkIds.FirstMalformed | src/pagerank.py:30-32 | The index reported is the first line with fewer than two tokens; every earlier line has at least two. |
| LinkIds.FirstIndexFirst | src/pagerank.py:33-38 | FirstIndex finds the earliest occurrence of a token: no earlier position holds it. |
| LinkIds.Intern | src/pagerank.py:33-38 | Giving an unseen name the id equal to the current count keeps the table valid, and the name was not yet listed. |
| LinkIds.FirstSeenOrder | src/pagerank.py:27-39 | The interned names are distinct and are exactly the tokens of the input. Ids increase with the position of each name's first occurrence in the token stream, where each line contributes its source and then its target. |
| LinkIds.DenseIds | src/pagerank.py:27-39 | A valid table with n names has exactly n entries, and its ids are exactly 0..n-1, one per name. |
| LinkIds.LineNamesSeen | src/pagerank.py:30-38 | Both the source and the target of every line are interned. |
| LinkIds.SeenLineAddsNothing | src/pagerank.py:33-38 | Appending a line whose two names are already known leaves the name table unchanged. |
| LinkIds.SeenUpToPrefix | src/pagerank.py:30-38 | The names interned after n lines depend only on those n lines. |
| LinkIds.TrimmedSameEdges | src/pagerank.py:31-32 | Cutting every line to its first two tokens keeps each line's source and target and leaves exactly two tokens. |
| LinkIds.SeenTrimmed | src/pagerank.py:30-38 | Interning the first n lines gives the same names, in the same order, as interning them cut to two tokens each. |
| LinkIds.ExtraTokensIgnored | src/pagerank.py:30-38 | Two inputs whose lines agree on their first two tokens intern the same names in the same order. |
| LinkIds.ReverseNameId | src/pagerank.py:11-12 | The reverse map inverts the table in both directions (rev[ids[s]] == s and ids[rev[i]] == i) and has the same size. |
| Tables.OutdegreesStep | src/pagerank.py:44-47 | Processing line i increments exactly the source's count by one. |
| Tables.CreateOutlinks | src/pagerank.py:42-48 | The result has one entry per id. Entry id is the number of input lines whose source is that id's name, counting duplicates and self-loops. |
| Tables.InSourcesLength | src/pagerank.py:51-59 | A page's inlink list is as long as the number of lines whose target is that page. |
| Tables.InlinksStep | src/pagerank.py:55-58 | Processing line i appends exactly the source id to exactly the target's list. |
| Tables.CreateInlinks | src/pagerank.py:51-59 | The result has one list per id. List t holds the source ids of the lines whose target is t, in input order. |
| Tables.GetNoOutlinks | src/pagerank.py:62-67 | Returns the ids whose outdegree is 0, as defined by NoOutlinks. |
| Tables.NoOutlinksAscending | src/pagerank.py:62-67 | Every returned id is in range and has outdegree 0, and the ids are strictly ascending. |
| Tables.NoOutlinksOnce | src/pagerank.py:62-67 | Every id with outdegree 0 occurs exactly once, and no other id occurs. |
| Tables.InlinksMatchOutdegrees | src/pagerank.py:42-59 | For every id u, the occurrences of u across all inlink lists number exactly outlinks[u]. The lists' total length is the number of lines. |
| Tables.FlattenContains | src/pagerank.py:57-58 | One inlink list never holds more copies of u than all the lists together. |
| Tables.TablesSameEdges | src/pagerank.py:42-59 | Two inputs whose lines agree on their first two tokens give the same outdegree table and the same inlink lists. |
| Tables.DivisionSafe | src/pagerank.py:82 | Under consistent tables, every id in an inlink list is in range and has outdegree at least 1, so `prev_pr[inlink_id] / outlinks[inlink_id]` never divides by zero. Every dangling id is in range. |
| Tables.BuiltTablesConsistent | src/pagerank.py:42-67 | The tables built from the same lines and the same valid name table are consistent. |
| Rank.SumAtNonNegative | src/pagerank.py:174 | A sum of non-negative ranks over any list of ids is non-negative. |
| Rank.InlinkMassNonNegative | src/pagerank.py:80-85 | The inbound sum of rank/outdegree is non-negative when the previous ranks are. |
| Rank.SumInlinksBound | src/pagerank.py:79-87 | For 0 <= lamb <= 1 with non-negative ranks and dangling mass, the per-page value is at least the teleport share lamb/N. |
| Rank.ConsistentSafe | src/pagerank.py:82 | Consistent tables satisfy every precondition the step needs: ids in range and outdegrees non-zero. |
| Rank.Step | src/pagerank.py:171-186 | The loop writes the value of the per-page formula for every page of prev_pr, as specified by StepSpec. |
| Rank.StepBounds | src/pagerank.py:176-186 | For 0 <= lamb <= 1 and non-negative ranks, every page's new rank is at least lamb/N, and the new vector is non-negative. |
| Rank.IterateBounds | src/pagerank.py:216-232 | After any number of steps the ranks stay non-negative. After at least one step, each rank is at least lamb/N. |
| Rank.RunNTimes | src/pagerank.py:214-232 | With no iterations the result is the empty next_pr. With iterations but no pages it is a division by zero. Otherwise it is the given number of steps from the uniform vector 1/N. |
| Mass.InlinkMassIsSumAt | src/pagerank.py:80-85 | The inbound sum equals the sum, over the inlink ids, of each source's rank divided by its outdegree. |
| Mass.InlinkMassesTotal | src/pagerank.py:176-186 | Summed over all pages, the inbound terms equal the sum of rank/outdegree over the concatenated inlink lists. |
| Mass.GroupedRatio | src/pagerank.py:80-85 | Counting each source's rank/outdegree as often as it occurs in the inlinks gives back each non-dangling page's full rank. |
| Mass.GroupedDangling | src/pagerank.py:174 | Summing ranks over the dangling list equals the total rank of the pages with outdegree 0. |
| Mass.LiveAndDead | src/pagerank.py:171-186 | The mass on pages with outlinks plus the mass on dangling pages is the total mass. |
| Mass.MassSplit | src/pagerank.py:171-186 | Under consistent tables, the mass received over inlinks plus the dangling mass before scaling is exactly the previous total. No rank is lost or counted twice. |
| Mass.StepEntries | src/pagerank.py:79-87 | Page v's new rank is lamb/N + (1 - lamb) * (inbound mass of v + dangling term). |
| Mass.SumAffineMap | src/pagerank.py:176-186 | Summing the per-page formula over n pages gives n*teleport + (1 - lamb)*(inbound total + n*dangling term). |
| Mass.AffineMass | src/pagerank.py:79-87 | Summing the formula over all N pages gives lamb + (1 - lamb) * mass, whenever the inbound and dangling totals add to the mass. |
| Mass.StepMass | src/pagerank.py:171-186 | Under consistent tables, one step maps total mass m to lamb + (1 - lamb) * m, for any lamb. |
| Mass.StepKeepsOne | src/pagerank.py:171-186 | If the previous ranks sum to 1, so do the new ones. |
| Mass.UniformMass | src/pagerank.py:214 | The initial vector of n entries 1/n sums to 1 and is non-negative. |
| Mass.IterateMass | src/pagerank.py:216-232 | Starting from ranks that sum to 1, any number of steps leaves ranks that sum to 1. |
| Ranking.NameLessIrreflexive | src/pagerank.py:118 | No name sorts before itself. |
| Ranking.NameLessTransitive | src/pagerank.py:118 | String order on names is transitive. |
| Ranking.NameLessTotal | src/pagerank.py:118 | Of two different names, exactly one sorts first. |
| Ranking.BeforeTransitive | src/pagerank.py:118 | The key (-score, name) orders rows transitively. |
| Ranking.BeforeTotal | src/pagerank.py:118 | Of two rows with different names, exactly one comes first under (-score, name). |
| Ranking.BeforeIrreflexive | src/pagerank.py:118 | No row comes before itself. |
| Ranking.InsertPermutes | src/pagerank.py:116-119 | Inserting a row adds exactly that row to the multiset of rows. |
| Ranking.InsertSorted | src/pagerank.py:116-119 | Inserting into a sorted list keeps it sorted by (-score, name). |
| Ranking.InsertDistinct | src/pagerank.py:116-119 | Inserting a row with a new name keeps the names distinct. |
| Ranking.SortRowsSpec | src/pagerank.py:116-119 | The sort result is a permutation of its input, is in (-score, name) order, and keeps names distinct. |
| Ranking.StrictlySorted | src/pagerank.py:116-119 | A sorted list with distinct names is strictly ordered, pairwise. |
| Ranking.SortedUnique | src/pagerank.py:116-119 | Two sorted permutations of the same distinct-name rows are equal, so the sort's output is determined by its input. |
| Ranking.ReportLines | src/pagerank.py:116-124 | The report has min(k, n) lines (none when k <= 0, all n when k > n), numbered 1, 2, … in order, and each is one of the input rows. |
| Ranking.WriteTop | src/pagerank.py:121-124 | The `enumerate` walk that breaks once `i >= k` emits exactly the first min(k, n) sorted rows, the i-th at position i + 1 with its own name and score. None are emitted when k <= 0. |
| Ranking.WriteReport | src/pagerank.py:116-124 | Sorting and then writing gives exactly the report of the rows, so the ordering and top-k lemmas about `Report` apply to what is written. |
| Ranking.ReportMembers | src/pagerank.py:116-124 | Every reported line comes from an input row. |
| Ranking.ReportOrdered | src/pagerank.py:116-124 | Reported lines are strictly ordered: scores do not increase, and equal scores come in ascending name order. |
| Ranking.ReportIsTop | src/pagerank.py:116-124 | Every input row is either reported or ranks after every reported line, so the report is the top k. |
| Ranking.ReportIsTopOf | src/pagerank.py:131-139 | The top-k law for rows built page by page as (name of page, score of page). |
| Ranking.InlinkRowsDistinct | src/pagerank.py:117 | Every page has a name in the reverse map, and the inlink rows have distinct names. |
| Ranking.RowsDistinct | src/pagerank.py:132 | Every page has a name in the reverse map, and the rank rows have distinct names. |
| PageRank.IdMap | src/pagerank.py:33-38 | The map built from a name list holds exactly those names. When the names are distinct, it sends the i-th name to i. |
| PageRank.NameTable | src/pagerank.py:27-39 | The table create_linkids builds is valid and lists names in first-seen order. |
| PageRank.TableUnique | src/pagerank.py:27-39 | A valid table is determined by its name order, so the loop's table equals NameTable. |
| PageRank.LinesKnown | src/pagerank.py:44-58 | Every name that create_outlinks and create_inlinks look up is in linkids, so neither raises KeyError. |
| PageRank.NoNamesNoLines | src/pagerank.py:212 | BIG_N is zero exactly when the input has no lines. |
| PageRank.Ranks | src/pagerank.py:214-232 | The fixed-count ranks are empty for zero iterations. Otherwise they have one entry per page. |
| PageRank.PageRankNTimes | src/pagerank.py:196-235 | The whole pipeline: a malformed line gives MissingToken at its index; an empty graph with at least one iteration gives ZeroDivision; otherwise the result is the inlink report and the rank report of the fixed-count ranks. |
| PageRank.BuiltConsistent | src/pagerank.py:206-212 | The tables the pipeline builds are consistent, have one entry per page, and there are no pages exactly when there are no lines. |
| PageRank.RanksSumToOne | src/pagerank.py:214-232 | For a non-empty graph and at least one iteration, the final ranks sum to 1 for every lamb. |
| PageRank.RanksAboveTeleport | src/pagerank.py:214-232 | For 0 <= lamb <= 1, each final rank is at least lamb/N. |
| PageRank.ReverseIsNames | src/pagerank.py:11-12 | Page i's name in the reverse map is the i-th name in first-seen order. |
| PageRank.InlinkRowsCount | src/pagerank.py:116-117 | Each inlink row names a page of the input, with score equal to the number of lines whose target is that page. |
| PageRank.InlinkReportCounts | src/pagerank.py:116-124 | Each line of the inlink report names a page of the input, and its score is that page's inbound line count. |
| PageRank.InlinkRowsArePages | src/pagerank.py:116-117 | Inlink row v is (name of page v, number of lines that target page v), and the rows have distinct names. |
| PageRank.InlinkReportOrdered | src/pagerank.py:116-124 | The inlink report is strictly ordered: inbound counts do not increase, and equal counts come in ascending name order. |
| PageRank.InlinkReportTop | src/pagerank.py:116-124 | Every page is either in the inlink report with its own inbound count, or ranks after every reported line. |
| PageRank.RankRowsArePages | src/pagerank.py:131-132 | Rank row v is (name of page v, rank of page v), and the rank rows have distinct names. |
| PageRank.RankReportOrdered | src/pagerank.py:131-139 | The rank report is strictly ordered by (-rank, name). |
| PageRank.RankReportTop | src/pagerank.py:131-139 | Every page is either in the rank report with its own rank, or ranks after every reported line. |
| PageRank.PipelineSameEdges | src/pagerank.py:196-235 | Tokens after the second change nothing: two inputs whose lines agree on their first two tokens give the same name table, inlink report, ranks and rank report. |

## Left out

- `do_pagerank_to_convergence` (src/pagerank.py:149-193): its `while True` loop stops only when the float L2 distance drops below tau, and termination depends on numerical convergence. Its loop body is the same step as the fixed-count driver, and `Rank.Step` models it.
- `get_l2` (src/pagerank.py:91-94): it uses `math.sqrt` on floats and only serves the convergence test.
- `read_infile` (src/pagerank.py:21-24): gzip decompression and file reading are I/O. The model takes the lines already split into tokens.
  - Note that `strip().split("\n")` turns an empty file into one empty line. That line is a missing-token error at index 0, not an empty graph.
- `write_dictionary` (src/pagerank.py:103-107): debugging output, which is I/O.
- In `write_inlinks` and `write_pr`: opening the file, the tab-separated text and the `:.12f` rank formatting are I/O and float formatting. The model produces the ordered, truncated and numbered rows.
- `main` (src/pagerank.py:238-265): command-line parsing and the choice between the two drivers are configuration glue.
- IEEE floating point: ranks, the division in `sum_inlinks` and the float-keyed sort in `write_pr` use exact reals. Rounding, and the resulting ties or reorderings, are not modelled.
- Aliasing of `prev_pr = next_pr.copy()` and the in-place overwrite of `next_pr`: the model works on values. Each step writes a complete fresh vector, which gives the same contents because every key is rewritten.
- Rank.RunNTimes: requires the tables to satisfy `SafeTables` (ids in range, no zero divisors), which the source does not check. The pipeline always passes tables built from the same lines, which satisfy it (`Rank.ConsistentSafe`, `PageRank.BuiltConsistent`).
- Tables.CreateOutlinks and Tables.CreateInlinks: require that every looked-up name is in the table, where the source would raise `KeyError`. The pipeline's table always contains them (`PageRank.LinesKnown`).
