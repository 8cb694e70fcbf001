/**
 * The integer-indexed graph tables built from the edge lines once the names
 * are interned: outdegree per id, inbound source ids per id, and the ids
 * with no outgoing edge. A dict keyed by the ids 0..n-1 in insertion order
 * is a sequence indexed by id.
 */
module Tables {
  import opened LinkIds

  /** Every line has a source token, and it is a known name. */
  predicate SourcesKnown(lines: seq<Line>, ids: map<string, nat>)
  {
    forall i :: 0 <= i < |lines| ==> |lines[i]| >= 1 && lines[i][0] in ids
  }

  /** Every line has a source and a target token, both known names. */
  predicate EdgesKnown(lines: seq<Line>, ids: map<string, nat>)
  {
    forall i :: 0 <= i < |lines| ==> |lines[i]| >= 2 && lines[i][0] in ids && lines[i][1] in ids
  }

  /** The number of the first `n` lines whose source token is `name`. */
  function OutCount(lines: seq<Line>, n: nat, name: string): nat
    requires n <= |lines|
  {
    if n == 0 then 0
    else OutCount(lines, n - 1, name) + (if |lines[n - 1]| >= 1 && lines[n - 1][0] == name then 1 else 0)
  }

  /** The outdegree table after the first `n` lines: one count per id. */
  function Outdegrees(lines: seq<Line>, n: nat, t: LinkIds): (out: seq<nat>)
    requires n <= |lines|
    ensures |out| == |t.names|
  {
    seq(|t.names|, u requires 0 <= u < |t.names| => OutCount(lines, n, t.names[u]))
  }

  /** The ids of the sources of the first `n` lines whose target is `name`, in input order. */
  function InSources(lines: seq<Line>, n: nat, ids: map<string, nat>, name: string): seq<nat>
    requires n <= |lines| && EdgesKnown(lines, ids)
  {
    if n == 0 then []
    else InSources(lines, n - 1, ids, name) + (if lines[n - 1][1] == name then [ids[lines[n - 1][0]]] else [])
  }

  /** The number of the first `n` lines whose target token is `name`. */
  function InCount(lines: seq<Line>, n: nat, name: string): nat
    requires n <= |lines|
  {
    if n == 0 then 0
    else InCount(lines, n - 1, name) + (if |lines[n - 1]| >= 2 && lines[n - 1][1] == name then 1 else 0)
  }

  /** A name's inlink list holds one source per line that targets it, duplicates included. */
  lemma {:induction false} InSourcesLength(lines: seq<Line>, n: nat, ids: map<string, nat>, name: string)
    requires n <= |lines| && EdgesKnown(lines, ids)
    ensures |InSources(lines, n, ids, name)| == InCount(lines, n, name)
  {
    if n > 0 {
      InSourcesLength(lines, n - 1, ids, name);
    }
  }

  /** The inlink table after the first `n` lines: one source list per id. */
  function Inlinks(lines: seq<Line>, n: nat, t: LinkIds): (inl: seq<seq<nat>>)
    requires n <= |lines| && EdgesKnown(lines, t.ids)
    ensures |inl| == |t.names|
  {
    seq(|t.names|, v requires 0 <= v < |t.names| => InSources(lines, n, t.ids, t.names[v]))
  }

  /** Counting sources reads only the first token of a line. */
  lemma {:induction false} OutCountSameEdges(a: seq<Line>, b: seq<Line>, n: nat, name: string)
    requires SameEdges(a, b) && n <= |a|
    ensures OutCount(a, n, name) == OutCount(b, n, name)
  {
    if n > 0 {
      OutCountSameEdges(a, b, n - 1, name);
    }
  }

  /** Collecting inbound sources reads only the first two tokens of a line. */
  lemma {:induction false} InSourcesSameEdges(a: seq<Line>, b: seq<Line>, n: nat, ids: map<string, nat>, name: string)
    requires SameEdges(a, b) && n <= |a| && EdgesKnown(a, ids)
    ensures EdgesKnown(b, ids)
    ensures InSources(a, n, ids, name) == InSources(b, n, ids, name)
  {
    if n > 0 {
      InSourcesSameEdges(a, b, n - 1, ids, name);
    }
  }

  /** Tokens after the second leave both the outdegree and the inlink table unchanged. */
  lemma TablesSameEdges(a: seq<Line>, b: seq<Line>, t: LinkIds)
    requires SameEdges(a, b) && EdgesKnown(a, t.ids)
    ensures EdgesKnown(b, t.ids)
    ensures Outdegrees(a, |a|, t) == Outdegrees(b, |b|, t)
    ensures Inlinks(a, |a|, t) == Inlinks(b, |b|, t)
  {
    forall u | 0 <= u < |t.names| ensures OutCount(a, |a|, t.names[u]) == OutCount(b, |b|, t.names[u]) {
      OutCountSameEdges(a, b, |a|, t.names[u]);
    }
    forall v | 0 <= v < |t.names| ensures InSources(a, |a|, t.ids, t.names[v]) == InSources(b, |b|, t.ids, t.names[v]) {
      InSourcesSameEdges(a, b, |a|, t.ids, t.names[v]);
    }
    InSourcesSameEdges(a, b, 0, t.ids, "");
  }

  lemma OutdegreesStep(lines: seq<Line>, i: nat, t: LinkIds)
    requires t.Valid() && i < |lines| && |lines[i]| >= 1 && lines[i][0] in t.ids
    ensures var s := t.ids[lines[i][0]];
      Outdegrees(lines, i + 1, t) == Outdegrees(lines, i, t)[s := Outdegrees(lines, i, t)[s] + 1]
  {
  }

  /** `create_outlinks`: start every id at 0 and count each line once for its source. */
  method CreateOutlinks(lines: seq<Line>, t: LinkIds) returns (out: seq<nat>)
    requires t.Valid() && SourcesKnown(lines, t.ids)
    ensures out == Outdegrees(lines, |lines|, t)
  {
    out := seq(|t.names|, _ => 0);
    var i := 0;
    while i < |lines|
      invariant i <= |lines|
      invariant out == Outdegrees(lines, i, t)
    {
      var srcId := t.ids[lines[i][0]];
      OutdegreesStep(lines, i, t);
      out := out[srcId := out[srcId] + 1];
      i := i + 1;
    }
  }

  lemma InlinksStep(lines: seq<Line>, i: nat, t: LinkIds)
    requires t.Valid() && i < |lines| && EdgesKnown(lines, t.ids)
    ensures var v := t.ids[lines[i][1]];
      Inlinks(lines, i + 1, t) == Inlinks(lines, i, t)[v := Inlinks(lines, i, t)[v] + [t.ids[lines[i][0]]]]
  {
    var v := t.ids[lines[i][1]];
    var before, after := Inlinks(lines, i, t), Inlinks(lines, i + 1, t);
    forall w | 0 <= w < |t.names|
      ensures after[w] == if w == v then before[w] + [t.ids[lines[i][0]]] else before[w]
    {
      assert (t.names[w] == lines[i][1]) == (w == v);
    }
  }

  /** `create_inlinks`: start every id with [] and append each line's source id to its target's list. */
  method CreateInlinks(lines: seq<Line>, t: LinkIds) returns (inl: seq<seq<nat>>)
    requires t.Valid() && EdgesKnown(lines, t.ids)
    ensures inl == Inlinks(lines, |lines|, t)
  {
    inl := seq(|t.names|, _ => []);
    var i := 0;
    while i < |lines|
      invariant i <= |lines|
      invariant inl == Inlinks(lines, i, t)
    {
      var srcId, targetId := t.ids[lines[i][0]], t.ids[lines[i][1]];
      InlinksStep(lines, i, t);
      inl := inl[targetId := inl[targetId] + [srcId]];
      i := i + 1;
    }
  }

  /** The ids among 0..n-1 whose outdegree is 0, in ascending order. */
  function NoOutlinks(out: seq<nat>, n: nat): seq<nat>
    requires n <= |out|
  {
    if n == 0 then [] else NoOutlinks(out, n - 1) + (if out[n - 1] == 0 then [n - 1] else [])
  }

  /** `get_no_outlinks`: scan the outdegree table in id order and keep the zeros. */
  method GetNoOutlinks(out: seq<nat>) returns (res: seq<nat>)
    ensures res == NoOutlinks(out, |out|)
  {
    res := [];
    var id := 0;
    while id < |out|
      invariant id <= |out|
      invariant res == NoOutlinks(out, id)
    {
      if out[id] == 0 {
        res := res + [id];
      }
      id := id + 1;
    }
  }

  /** The dangling list holds ids of outdegree 0 only, in strictly ascending order. */
  lemma {:induction false} NoOutlinksAscending(out: seq<nat>, n: nat)
    requires n <= |out|
    ensures forall k :: 0 <= k < |NoOutlinks(out, n)| ==> NoOutlinks(out, n)[k] < n && out[NoOutlinks(out, n)[k]] == 0
    ensures forall a, b :: 0 <= a < b < |NoOutlinks(out, n)| ==> NoOutlinks(out, n)[a] < NoOutlinks(out, n)[b]
  {
    if n > 0 {
      NoOutlinksAscending(out, n - 1);
    }
  }

  /** The number of occurrences of `x` in `s`. */
  function Count(s: seq<nat>, x: nat): nat
  {
    if s == [] then 0 else Count(s[..|s| - 1], x) + (if s[|s| - 1] == x then 1 else 0)
  }

  lemma {:induction false} CountAppend(a: seq<nat>, b: seq<nat>, x: nat)
    ensures Count(a + b, x) == Count(a, x) + Count(b, x)
  {
    if b != [] {
      assert (a + b)[..|a + b| - 1] == a + b[..|b| - 1];
      assert (a + b)[|a + b| - 1] == b[|b| - 1];
      CountAppend(a, b[..|b| - 1], x);
    } else {
      assert a + b == a;
    }
  }

  lemma {:induction false} CountAtLeastOne(s: seq<nat>, k: nat)
    requires k < |s|
    ensures Count(s, s[k]) >= 1
  {
    if k < |s| - 1 {
      assert s[..|s| - 1][k] == s[k];
      CountAtLeastOne(s[..|s| - 1], k);
    }
  }

  /** The dangling list holds each id of outdegree 0 exactly once, and nothing else. */
  lemma {:induction false} NoOutlinksOnce(out: seq<nat>, n: nat)
    requires n <= |out|
    ensures forall u: nat :: Count(NoOutlinks(out, n), u) == if u < n && out[u] == 0 then 1 else 0
  {
    if n > 0 {
      NoOutlinksOnce(out, n - 1);
      var prev := NoOutlinks(out, n - 1);
      var tail: seq<nat> := if out[n - 1] == 0 then [n - 1] else [];
      forall u: nat ensures Count(NoOutlinks(out, n), u) == if u < n && out[u] == 0 then 1 else 0 {
        CountAppend(prev, tail, u);
        assert Count(tail, u) == if u == n - 1 && out[u] == 0 then 1 else 0;
      }
    }
  }

  /** All inlink lists, concatenated in id order. */
  function Flatten(T: seq<seq<nat>>): seq<nat>
  {
    if T == [] then [] else Flatten(T[..|T| - 1]) + T[|T| - 1]
  }

  /** Appending `x` to one list adds exactly one `x` to the concatenation. */
  lemma {:induction false} FlattenAppend(T: seq<seq<nat>>, v: nat, x: nat)
    requires v < |T|
    ensures |Flatten(T[v := T[v] + [x]])| == |Flatten(T)| + 1
    ensures forall u: nat :: Count(Flatten(T[v := T[v] + [x]]), u) == Count(Flatten(T), u) + (if u == x then 1 else 0)
  {
    var T' := T[v := T[v] + [x]];
    var last := |T| - 1;
    if v == last {
      assert T'[..last] == T[..last];
      forall u: nat
        ensures Count(Flatten(T'), u) == Count(Flatten(T), u) + (if u == x then 1 else 0)
      {
        CountAppend(Flatten(T[..last]), T[v] + [x], u);
        CountAppend(Flatten(T[..last]), T[v], u);
        CountAppend(T[v], [x], u);
      }
    } else {
      assert T'[..last] == T[..last][v := T[v] + [x]];
      FlattenAppend(T[..last], v, x);
      forall u: nat
        ensures Count(Flatten(T'), u) == Count(Flatten(T), u) + (if u == x then 1 else 0)
      {
        CountAppend(Flatten(T'[..last]), T[last], u);
        CountAppend(Flatten(T[..last]), T[last], u);
      }
    }
  }

  /** Every list's entries are among the concatenation's. */
  lemma {:induction false} FlattenContains(T: seq<seq<nat>>, v: nat, u: nat)
    requires v < |T|
    ensures Count(T[v], u) <= Count(Flatten(T), u)
  {
    var last := |T| - 1;
    CountAppend(Flatten(T[..last]), T[last], u);
    if v < last {
      assert T[..last][v] == T[v];
      FlattenContains(T[..last], v, u);
    }
  }

  /** Each id `u` occurs `counts[u]` times in `s`, and nothing else occurs. */
  ghost predicate CountsMatch(s: seq<nat>, counts: seq<nat>)
  {
    forall u: nat :: Count(s, u) == if u < |counts| then counts[u] else 0
  }

  /**
   * Cross-table consistency: after any number of lines, an id occurs across
   * all inlink lists exactly as often as its outdegree, no other value
   * occurs, and the lists hold one entry per line.
   */
  lemma {:induction false} InlinksMatchOutdegrees(lines: seq<Line>, n: nat, t: LinkIds)
    requires t.Valid() && EdgesKnown(lines, t.ids) && n <= |lines|
    ensures CountsMatch(Flatten(Inlinks(lines, n, t)), Outdegrees(lines, n, t))
    ensures |Flatten(Inlinks(lines, n, t))| == n
  {
    if n == 0 {
      EmptyTables(lines, t);
    } else {
      var i := n - 1;
      InlinksMatchOutdegrees(lines, i, t);
      InlinksFlattenStep(lines, i, t);
      OutdegreesStep(lines, i, t);
      CountStep(Flatten(Inlinks(lines, i, t)), Flatten(Inlinks(lines, n, t)), t.ids[lines[i][0]],
                Outdegrees(lines, i, t), Outdegrees(lines, n, t));
    }
  }

  /** Reading one more line adds its source id once to the concatenated inlink lists. */
  lemma InlinksFlattenStep(lines: seq<Line>, i: nat, t: LinkIds)
    requires t.Valid() && i < |lines| && EdgesKnown(lines, t.ids)
    ensures |Flatten(Inlinks(lines, i + 1, t))| == |Flatten(Inlinks(lines, i, t))| + 1
    ensures forall u: nat ::
      Count(Flatten(Inlinks(lines, i + 1, t)), u) == Count(Flatten(Inlinks(lines, i, t)), u) + (if u == t.ids[lines[i][0]] then 1 else 0)
  {
    InlinksStep(lines, i, t);
    FlattenAppend(Inlinks(lines, i, t), t.ids[lines[i][1]], t.ids[lines[i][0]]);
  }

  lemma CountStep(before: seq<nat>, after: seq<nat>, s: nat, outBefore: seq<nat>, outAfter: seq<nat>)
    requires s < |outBefore|
    requires forall u: nat :: Count(after, u) == Count(before, u) + (if u == s then 1 else 0)
    requires outAfter == outBefore[s := outBefore[s] + 1]
    requires CountsMatch(before, outBefore)
    ensures CountsMatch(after, outAfter)
  {
  }

  lemma EmptyTables(lines: seq<Line>, t: LinkIds)
    requires EdgesKnown(lines, t.ids)
    ensures Flatten(Inlinks(lines, 0, t)) == []
    ensures forall u :: 0 <= u < |t.names| ==> Outdegrees(lines, 0, t)[u] == 0
  {
    FlattenEmpty(Inlinks(lines, 0, t));
  }

  lemma {:induction false} FlattenEmpty(T: seq<seq<nat>>)
    requires forall v :: 0 <= v < |T| ==> T[v] == []
    ensures Flatten(T) == []
  {
    if T != [] {
      FlattenEmpty(T[..|T| - 1]);
    }
  }

  /**
   * The tables the rank step relies on: one outdegree and one inlink list per
   * id, each id occurring across the inlink lists as often as its outdegree,
   * and the dangling list holding each id of outdegree 0 exactly once.
   */
  ghost predicate Consistent(inlinks: seq<seq<nat>>, outlinks: seq<nat>, noOutlinks: seq<nat>)
  {
    && |inlinks| == |outlinks|
    && CountsMatch(Flatten(inlinks), outlinks)
    && (forall u: nat :: Count(noOutlinks, u) == if u < |outlinks| && outlinks[u] == 0 then 1 else 0)
  }

  /**
   * In consistent tables every id in an inlink list is a known id with at
   * least one outgoing edge, so dividing by its outdegree is safe; every
   * dangling id is a known id.
   */
  lemma DivisionSafe(inlinks: seq<seq<nat>>, outlinks: seq<nat>, noOutlinks: seq<nat>)
    requires Consistent(inlinks, outlinks, noOutlinks)
    ensures forall v, k :: 0 <= v < |inlinks| && 0 <= k < |inlinks[v]| ==>
      inlinks[v][k] < |outlinks| && outlinks[inlinks[v][k]] > 0
    ensures forall k :: 0 <= k < |noOutlinks| ==> noOutlinks[k] < |outlinks|
  {
    forall v, k | 0 <= v < |inlinks| && 0 <= k < |inlinks[v]|
      ensures inlinks[v][k] < |outlinks| && outlinks[inlinks[v][k]] > 0
    {
      CountAtLeastOne(inlinks[v], k);
      FlattenContains(inlinks, v, inlinks[v][k]);
    }
    forall k | 0 <= k < |noOutlinks| ensures noOutlinks[k] < |outlinks| {
      CountAtLeastOne(noOutlinks, k);
    }
  }

  /** The tables built from the whole input are consistent. */
  lemma BuiltTablesConsistent(lines: seq<Line>, t: LinkIds)
    requires t.Valid() && EdgesKnown(lines, t.ids)
    ensures Consistent(Inlinks(lines, |lines|, t), Outdegrees(lines, |lines|, t),
                       NoOutlinks(Outdegrees(lines, |lines|, t), |t.names|))
  {
    InlinksMatchOutdegrees(lines, |lines|, t);
    NoOutlinksOnce(Outdegrees(lines, |lines|, t), |t.names|);
  }
}
