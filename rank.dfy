/**
 * One PageRank step and the fixed-count iteration, over exact reals: an
 * idealisation of the floating-point computation. Rank vectors are indexed
 * by id; `outlinks`, `inlinks` and `noOutlinks` are the tables of module
 * Tables.
 */
module Rank {
  import opened Wrappers
  import opened Tables

  /** The sum of all entries. */
  function Sum(s: seq<real>): real
  {
    if s == [] then 0.0 else Sum(s[..|s| - 1]) + s[|s| - 1]
  }

  predicate NonNegative(s: seq<real>)
  {
    forall i :: 0 <= i < |s| ==> s[i] >= 0.0
  }

  /** The entry of `w` at `x`, and nothing for an id `w` does not cover. */
  function At(w: seq<real>, x: nat): real
  {
    if x < |w| then w[x] else 0.0
  }

  /** The sum of `w[x]` over the entries `x` of `ids`, repeated entries counted each time. */
  function SumAt(ids: seq<nat>, w: seq<real>): real
  {
    if ids == [] then 0.0 else SumAt(ids[..|ids| - 1], w) + At(w, ids[|ids| - 1])
  }

  lemma {:induction false} SumAtNonNegative(ids: seq<nat>, w: seq<real>)
    requires NonNegative(w)
    ensures SumAt(ids, w) >= 0.0
  {
    if ids != [] {
      SumAtNonNegative(ids[..|ids| - 1], w);
    }
  }

  /** Every source in the list is a known id with a positive outdegree. */
  predicate Divisible(srcs: seq<nat>, outlinks: seq<nat>)
  {
    forall k :: 0 <= k < |srcs| ==> srcs[k] < |outlinks| && outlinks[srcs[k]] > 0
  }

  /** The list comprehension of `sum_inlinks`: the sum of prev[u] / outlinks[u] over the inlinks. */
  function InlinkMass(srcs: seq<nat>, outlinks: seq<nat>, prev: seq<real>): real
    requires Divisible(srcs, outlinks) && |prev| == |outlinks|
  {
    if srcs == [] then 0.0
    else
      var u := srcs[|srcs| - 1];
      InlinkMass(srcs[..|srcs| - 1], outlinks, prev) + prev[u] / (outlinks[u] as real)
  }

  /** Non-negative ranks pass on a non-negative mass. */
  lemma {:induction false} InlinkMassNonNegative(srcs: seq<nat>, outlinks: seq<nat>, prev: seq<real>)
    requires Divisible(srcs, outlinks) && |prev| == |outlinks| && NonNegative(prev)
    ensures InlinkMass(srcs, outlinks, prev) >= 0.0
  {
    if srcs != [] {
      var u := srcs[|srcs| - 1];
      InlinkMassNonNegative(srcs[..|srcs| - 1], outlinks, prev);
      assert prev[u] / (outlinks[u] as real) >= 0.0;
    }
  }

  /**
   * `sum_inlinks`: the next rank of `link`, teleportation share plus the
   * damped sum of what its inlinks pass on and of the dangling mass.
   */
  function SumInlinks(link: nat, inlinks: seq<seq<nat>>, outlinks: seq<nat>, prev: seq<real>,
                      lamb: real, bigN: nat, danglingMass: real): real
    requires link < |inlinks| && bigN > 0 && Divisible(inlinks[link], outlinks) && |prev| == |outlinks|
  {
    lamb / (bigN as real) + (1.0 - lamb) * (InlinkMass(inlinks[link], outlinks, prev) + danglingMass)
  }

  /** With a weight in [0, 1] and non-negative ranks, a next rank is at least the teleportation share. */
  lemma SumInlinksBound(link: nat, inlinks: seq<seq<nat>>, outlinks: seq<nat>, prev: seq<real>,
                        lamb: real, bigN: nat, danglingMass: real)
    requires link < |inlinks| && bigN > 0 && Divisible(inlinks[link], outlinks) && |prev| == |outlinks|
    requires 0.0 <= lamb <= 1.0 && NonNegative(prev) && danglingMass >= 0.0
    ensures SumInlinks(link, inlinks, outlinks, prev, lamb, bigN, danglingMass) >= lamb / (bigN as real)
  {
    InlinkMassNonNegative(inlinks[link], outlinks, prev);
    DampedNonNegative(lamb, InlinkMass(inlinks[link], outlinks, prev) + danglingMass);
  }

  lemma DampedNonNegative(lamb: real, m: real)
    requires 0.0 <= lamb <= 1.0 && m >= 0.0
    ensures (1.0 - lamb) * m >= 0.0
  {
  }

  /**
   * The rank held by the dangling ids, shared out evenly over all `bigN`
   * ids: the `bigN` shares together are that rank.
   */
  function DanglingMass(noOutlinks: seq<nat>, prev: seq<real>, bigN: nat): real
    requires bigN > 0 && forall k :: 0 <= k < |noOutlinks| ==> noOutlinks[k] < |prev|
  {
    1.0 / (bigN as real) * SumAt(noOutlinks, prev)
  }

  /** An even share of a non-negative mass is non-negative. */
  lemma DanglingNonNegative(bigN: nat, m: real)
    requires bigN > 0 && m >= 0.0
    ensures 1.0 / (bigN as real) * m >= 0.0
  {
  }

  /**
   * What a step needs of the tables: one outdegree per inlink list, every
   * inlink a known id with an outgoing edge, every dangling id known.
   */
  predicate SafeTables(inlinks: seq<seq<nat>>, outlinks: seq<nat>, noOutlinks: seq<nat>)
  {
    && |inlinks| == |outlinks|
    && (forall v :: 0 <= v < |inlinks| ==> Divisible(inlinks[v], outlinks))
    && (forall k :: 0 <= k < |noOutlinks| ==> noOutlinks[k] < |outlinks|)
  }

  /** Consistent tables are safe to step with. */
  lemma ConsistentSafe(inlinks: seq<seq<nat>>, outlinks: seq<nat>, noOutlinks: seq<nat>)
    requires Consistent(inlinks, outlinks, noOutlinks)
    ensures SafeTables(inlinks, outlinks, noOutlinks)
  {
    DivisionSafe(inlinks, outlinks, noOutlinks);
  }

  /** The rank vector one step after `prev`: the dangling mass once, then every id in order. */
  function StepSpec(inlinks: seq<seq<nat>>, outlinks: seq<nat>, noOutlinks: seq<nat>, prev: seq<real>, lamb: real): (next: seq<real>)
    requires SafeTables(inlinks, outlinks, noOutlinks) && |prev| == |outlinks| > 0
    ensures |next| == |prev|
  {
    var bigN := |outlinks|;
    var danglingMass := DanglingMass(noOutlinks, prev, bigN);
    seq(|prev|, v requires 0 <= v < |prev| => SumInlinks(v, inlinks, outlinks, prev, lamb, bigN, danglingMass))
  }

  /**
   * The body of the iteration loop: compute the dangling mass once, then
   * assign the next rank of every id of `prev` in id order.
   */
  method Step(inlinks: seq<seq<nat>>, outlinks: seq<nat>, noOutlinks: seq<nat>, prev: seq<real>, lamb: real)
    returns (next: seq<real>)
    requires SafeTables(inlinks, outlinks, noOutlinks) && |prev| == |outlinks| > 0
    ensures next == StepSpec(inlinks, outlinks, noOutlinks, prev, lamb)
  {
    var bigN := |outlinks|;
    var danglingMass := DanglingMass(noOutlinks, prev, bigN);
    next := [];
    var link := 0;
    while link < |prev|
      invariant link <= |prev| && |next| == link
      invariant forall v :: 0 <= v < link ==> next[v] == SumInlinks(v, inlinks, outlinks, prev, lamb, bigN, danglingMass)
    {
      next := next + [SumInlinks(link, inlinks, outlinks, prev, lamb, bigN, danglingMass)];
      link := link + 1;
    }
  }

  /** The initial rank vector: 1/n for each of the n ids. */
  function Uniform(n: nat): (r: seq<real>)
    ensures |r| == n
  {
    seq(n, i requires 0 <= i < n => 1.0 / (n as real))
  }

  /** The rank vector after `steps` steps from `start`. */
  function Iterate(inlinks: seq<seq<nat>>, outlinks: seq<nat>, noOutlinks: seq<nat>, start: seq<real>,
                   lamb: real, steps: nat): (r: seq<real>)
    requires SafeTables(inlinks, outlinks, noOutlinks) && |start| == |outlinks| > 0
    ensures |r| == |start|
  {
    if steps == 0 then start
    else StepSpec(inlinks, outlinks, noOutlinks, Iterate(inlinks, outlinks, noOutlinks, start, lamb, steps - 1), lamb)
  }

  /** With 0 <= lamb <= 1 and non-negative ranks, every next rank is at least the teleportation share. */
  lemma StepBounds(inlinks: seq<seq<nat>>, outlinks: seq<nat>, noOutlinks: seq<nat>, prev: seq<real>, lamb: real)
    requires SafeTables(inlinks, outlinks, noOutlinks) && |prev| == |outlinks| > 0
    requires 0.0 <= lamb <= 1.0 && NonNegative(prev)
    ensures forall v :: 0 <= v < |prev| ==> StepSpec(inlinks, outlinks, noOutlinks, prev, lamb)[v] >= lamb / (|outlinks| as real)
    ensures NonNegative(StepSpec(inlinks, outlinks, noOutlinks, prev, lamb))
  {
    var next := StepSpec(inlinks, outlinks, noOutlinks, prev, lamb);
    var dm := DanglingMass(noOutlinks, prev, |outlinks|);
    SumAtNonNegative(noOutlinks, prev);
    DanglingNonNegative(|outlinks|, SumAt(noOutlinks, prev));
    forall v | 0 <= v < |prev| ensures next[v] >= lamb / (|outlinks| as real) {
      assert next[v] == SumInlinks(v, inlinks, outlinks, prev, lamb, |outlinks|, dm);
      SumInlinksBound(v, inlinks, outlinks, prev, lamb, |outlinks|, dm);
    }
    assert lamb / (|outlinks| as real) >= 0.0;
  }

  /** Every iterate of a non-negative start is non-negative, and after a step, at least lamb / n. */
  lemma {:induction false} IterateBounds(inlinks: seq<seq<nat>>, outlinks: seq<nat>, noOutlinks: seq<nat>,
                                         start: seq<real>, lamb: real, steps: nat)
    requires SafeTables(inlinks, outlinks, noOutlinks) && |start| == |outlinks| > 0
    requires 0.0 <= lamb <= 1.0 && NonNegative(start)
    ensures NonNegative(Iterate(inlinks, outlinks, noOutlinks, start, lamb, steps))
    ensures steps > 0 ==> forall v :: 0 <= v < |start| ==>
      Iterate(inlinks, outlinks, noOutlinks, start, lamb, steps)[v] >= lamb / (|outlinks| as real)
  {
    if steps > 0 {
      IterateBounds(inlinks, outlinks, noOutlinks, start, lamb, steps - 1);
      StepBounds(inlinks, outlinks, noOutlinks, Iterate(inlinks, outlinks, noOutlinks, start, lamb, steps - 1), lamb);
    }
  }

  datatype RankError = ZeroDivision

  /**
   * The loop of `do_pagerank_n_times`: `next_pr` starts empty and is what
   * the loop leaves behind, so no iteration leaves it empty; an empty graph
   * fails at `1 / BIG_N` as soon as a step runs.
   */
  method RunNTimes(inlinks: seq<seq<nat>>, outlinks: seq<nat>, noOutlinks: seq<nat>, lamb: real, iterations: int)
    returns (r: Result<seq<real>, RankError>)
    requires SafeTables(inlinks, outlinks, noOutlinks)
    ensures iterations <= 0 ==> r == Ok([])
    ensures iterations > 0 && |outlinks| == 0 ==> r == Err(ZeroDivision)
    ensures iterations > 0 && |outlinks| > 0 ==>
      r == Ok(Iterate(inlinks, outlinks, noOutlinks, Uniform(|outlinks|), lamb, iterations))
  {
    var bigN := |outlinks|;
    var prev := Uniform(bigN);
    var next: seq<real> := [];
    var i := 0;
    while i < iterations
      invariant 0 <= i && (iterations <= 0 ==> i == 0) && (iterations > 0 ==> i <= iterations)
      invariant i == 0 ==> next == [] && prev == Uniform(bigN)
      invariant i > 0 ==> bigN > 0 && prev == next == Iterate(inlinks, outlinks, noOutlinks, Uniform(bigN), lamb, i)
    {
      if bigN == 0 {
        return Err(ZeroDivision);
      }
      next := Step(inlinks, outlinks, noOutlinks, prev, lamb);
      prev := next;
      i := i + 1;
    }
    return Ok(next);
  }
}
