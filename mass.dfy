/**
 * Conservation of rank: with consistent tables a step turns a vector of
 * total mass M into one of total mass lamb + (1 - lamb) * M, so a vector of
 * mass 1 stays a probability distribution; and every rank after a step is
 * at least the teleportation share lamb / N.
 */
module Mass {
  import opened Tables
  import opened Rank

  /** The share each id passes to each of its targets: its rank over its outdegree. */
  function Ratio(outlinks: seq<nat>, prev: seq<real>): (r: seq<real>)
    requires |prev| == |outlinks|
    ensures |r| == |prev|
  {
    seq(|prev|, u requires 0 <= u < |prev| => if outlinks[u] > 0 then prev[u] / (outlinks[u] as real) else 0.0)
  }

  lemma {:induction false} InlinkMassIsSumAt(srcs: seq<nat>, outlinks: seq<nat>, prev: seq<real>)
    requires |prev| == |outlinks| && Divisible(srcs, outlinks)
    ensures InlinkMass(srcs, outlinks, prev) == SumAt(srcs, Ratio(outlinks, prev))
  {
    if srcs != [] {
      InlinkMassIsSumAt(srcs[..|srcs| - 1], outlinks, prev);
    }
  }

  lemma {:induction false} SumAtAppend(a: seq<nat>, b: seq<nat>, w: seq<real>)
    ensures SumAt(a + b, w) == SumAt(a, w) + SumAt(b, w)
  {
    if b == [] {
      assert a + b == a;
    } else {
      assert (a + b)[..|a + b| - 1] == a + b[..|b| - 1];
      SumAtAppend(a, b[..|b| - 1], w);
    }
  }

  /** What every id receives from its inlinks, in id order. */
  function InlinkMasses(inlinks: seq<seq<nat>>, outlinks: seq<nat>, prev: seq<real>): (r: seq<real>)
    requires |prev| == |outlinks| && forall v :: 0 <= v < |inlinks| ==> Divisible(inlinks[v], outlinks)
    ensures |r| == |inlinks|
  {
    seq(|inlinks|, v requires 0 <= v < |inlinks| => InlinkMass(inlinks[v], outlinks, prev))
  }

  /** What all ids receive from inlinks is the sum of the shares over all edges. */
  lemma {:induction false} InlinkMassesTotal(inlinks: seq<seq<nat>>, outlinks: seq<nat>, prev: seq<real>)
    requires |prev| == |outlinks|
    requires forall v :: 0 <= v < |inlinks| ==> Divisible(inlinks[v], outlinks)
    ensures Sum(InlinkMasses(inlinks, outlinks, prev)) == SumAt(Flatten(inlinks), Ratio(outlinks, prev))
  {
    if inlinks != [] {
      var last := |inlinks| - 1;
      var front := inlinks[..last];
      InlinkMassesTotal(front, outlinks, prev);
      assert InlinkMasses(inlinks, outlinks, prev)[..last] == InlinkMasses(front, outlinks, prev);
      SumAtAppend(Flatten(front), inlinks[last], Ratio(outlinks, prev));
      InlinkMassIsSumAt(inlinks[last], outlinks, prev);
    }
  }

  /** The sum over the ids below `m` of (occurrences of u in `s`) times w[u]. */
  function Grouped(s: seq<nat>, w: seq<real>, m: nat): real
  {
    if m == 0 then 0.0 else Grouped(s, w, m - 1) + (Count(s, m - 1) as real) * At(w, m - 1)
  }

  lemma {:induction false} GroupedSnoc(s: seq<nat>, x: nat, w: seq<real>, m: nat)
    ensures Grouped(s + [x], w, m) == Grouped(s, w, m) + (if x < m then At(w, x) else 0.0)
  {
    if m > 0 {
      GroupedSnoc(s, x, w, m - 1);
      assert (s + [x])[..|s|] == s;
    }
  }

  /** Summing entry by entry equals summing id by id, weighted by occurrences. */
  lemma {:induction false} SumAtGrouped(s: seq<nat>, w: seq<real>, m: nat)
    requires forall k :: 0 <= k < |s| ==> s[k] < m
    ensures SumAt(s, w) == Grouped(s, w, m)
  {
    if s != [] {
      var front, x := s[..|s| - 1], s[|s| - 1];
      assert forall k :: 0 <= k < |front| ==> front[k] == s[k];
      SumAtGrouped(front, w, m);
      assert s == front + [x];
      GroupedSnoc(front, x, w, m);
      calc {
        SumAt(s, w);
        SumAt(front, w) + At(w, x);
        Grouped(front, w, m) + At(w, x);
        Grouped(front + [x], w, m);
      }
    } else {
      GroupedNothing(s, w, m);
    }
  }

  lemma {:induction false} GroupedNothing(s: seq<nat>, w: seq<real>, m: nat)
    requires s == []
    ensures Grouped(s, w, m) == 0.0
  {
    if m > 0 {
      GroupedNothing(s, w, m - 1);
    }
  }

  /** The rank held by the ids below `m` that have outgoing edges. */
  function LiveMass(outlinks: seq<nat>, prev: seq<real>, m: nat): real
    requires m <= |outlinks| && m <= |prev|
  {
    if m == 0 then 0.0 else LiveMass(outlinks, prev, m - 1) + (if outlinks[m - 1] > 0 then prev[m - 1] else 0.0)
  }

  /** The rank held by the dangling ids below `m`. */
  function DeadMass(outlinks: seq<nat>, prev: seq<real>, m: nat): real
    requires m <= |outlinks| && m <= |prev|
  {
    if m == 0 then 0.0 else DeadMass(outlinks, prev, m - 1) + (if outlinks[m - 1] == 0 then prev[m - 1] else 0.0)
  }

  /** An id of outdegree d passes on d shares of rank/d: all of its rank. */
  lemma {:induction false} GroupedRatio(s: seq<nat>, outlinks: seq<nat>, prev: seq<real>, m: nat)
    requires |prev| == |outlinks| && m <= |outlinks| && CountsMatch(s, outlinks)
    ensures Grouped(s, Ratio(outlinks, prev), m) == LiveMass(outlinks, prev, m)
  {
    if m > 0 {
      GroupedRatio(s, outlinks, prev, m - 1);
      var u := m - 1;
      assert Count(s, u) == outlinks[u];
      if outlinks[u] > 0 {
        var d := outlinks[u] as real;
        assert d * (prev[u] / d) == prev[u];
      }
    }
  }

  /** Each dangling id occurs once in the dangling list, so the list carries exactly their rank. */
  lemma {:induction false} GroupedDangling(noOutlinks: seq<nat>, outlinks: seq<nat>, prev: seq<real>, m: nat)
    requires |prev| == |outlinks| && m <= |outlinks|
    requires forall u: nat :: Count(noOutlinks, u) == if u < |outlinks| && outlinks[u] == 0 then 1 else 0
    ensures Grouped(noOutlinks, prev, m) == DeadMass(outlinks, prev, m)
  {
    if m > 0 {
      GroupedDangling(noOutlinks, outlinks, prev, m - 1);
      assert Count(noOutlinks, m - 1) == if outlinks[m - 1] == 0 then 1 else 0;
    }
  }

  lemma {:induction false} LiveAndDead(outlinks: seq<nat>, prev: seq<real>, m: nat)
    requires m <= |outlinks| && m <= |prev|
    ensures LiveMass(outlinks, prev, m) + DeadMass(outlinks, prev, m) == Sum(prev[..m])
  {
    if m > 0 {
      LiveAndDead(outlinks, prev, m - 1);
      assert prev[..m][..m - 1] == prev[..m - 1];
    }
  }

  /** Every entry of `s` below `n` occurs in it, so the entries are the ids below `n`. */
  lemma CountedBelow(s: seq<nat>, n: nat)
    requires forall u: nat :: u >= n ==> Count(s, u) == 0
    ensures forall k :: 0 <= k < |s| ==> s[k] < n
  {
    forall k | 0 <= k < |s| ensures s[k] < n {
      CountAtLeastOne(s, k);
    }
  }

  /** The entry shape of a step: a share plus a damped received amount and dangling part. */
  function AffineMap(a: real, b: real, c: real, x: seq<real>): (s: seq<real>)
    ensures |s| == |x|
  {
    seq(|x|, v requires 0 <= v < |x| => a + b * (x[v] + c))
  }

  lemma {:induction false} SumAffineMap(a: real, b: real, c: real, x: seq<real>)
    ensures Sum(AffineMap(a, b, c, x)) == (|x| as real) * a + b * (Sum(x) + (|x| as real) * c)
  {
    if x != [] {
      var n := |x| - 1;
      SumAffineMap(a, b, c, x[..n]);
      AffineMapPrefix(a, b, c, x, n);
      AffineSnoc(a, b, c, n as real, |x| as real, Sum(x[..n]), x[n], Sum(x),
                 Sum(AffineMap(a, b, c, x[..n])), AffineMap(a, b, c, x)[n], Sum(AffineMap(a, b, c, x)));
    }
  }

  lemma AffineMapPrefix(a: real, b: real, c: real, x: seq<real>, n: nat)
    requires n <= |x|
    ensures AffineMap(a, b, c, x)[..n] == AffineMap(a, b, c, x[..n])
  {
    forall v | 0 <= v < n ensures AffineMap(a, b, c, x)[..n][v] == AffineMap(a, b, c, x[..n])[v] {
      assert x[..n][v] == x[v];
    }
  }

  /** The step of the affine sum: one more entry, one more share of each part. */
  lemma AffineSnoc(a: real, b: real, c: real, k: real, k1: real, sumX: real, xLast: real, sumX1: real,
                   sumS: real, last: real, sumS1: real)
    requires sumS == k * a + b * (sumX + k * c) && last == a + b * (xLast + c)
    requires k1 == k + 1.0 && sumX1 == sumX + xLast && sumS1 == sumS + last
    ensures sumS1 == k1 * a + b * (sumX1 + k1 * c)
  {
  }

  /** The shares passed along the edges add up to the rank of the ids that have outgoing edges. */
  lemma ReceivedIsLive(inlinks: seq<seq<nat>>, outlinks: seq<nat>, noOutlinks: seq<nat>, prev: seq<real>)
    requires Consistent(inlinks, outlinks, noOutlinks) && |prev| == |outlinks|
    ensures SafeTables(inlinks, outlinks, noOutlinks)
    ensures Sum(InlinkMasses(inlinks, outlinks, prev)) == LiveMass(outlinks, prev, |outlinks|)
  {
    ConsistentSafe(inlinks, outlinks, noOutlinks);
    InlinkMassesTotal(inlinks, outlinks, prev);
    CountedBelow(Flatten(inlinks), |outlinks|);
    SumAtGrouped(Flatten(inlinks), Ratio(outlinks, prev), |outlinks|);
    GroupedRatio(Flatten(inlinks), outlinks, prev, |outlinks|);
  }

  /** The dangling list carries exactly the rank of the dangling ids. */
  lemma DanglingIsDead(inlinks: seq<seq<nat>>, outlinks: seq<nat>, noOutlinks: seq<nat>, prev: seq<real>)
    requires Consistent(inlinks, outlinks, noOutlinks) && |prev| == |outlinks|
    ensures SumAt(noOutlinks, prev) == DeadMass(outlinks, prev, |outlinks|)
  {
    CountedBelow(noOutlinks, |outlinks|);
    SumAtGrouped(noOutlinks, prev, |outlinks|);
    GroupedDangling(noOutlinks, outlinks, prev, |outlinks|);
  }

  /** The edges and the dangling list together carry the whole previous mass. */
  lemma MassSplit(inlinks: seq<seq<nat>>, outlinks: seq<nat>, noOutlinks: seq<nat>, prev: seq<real>)
    requires Consistent(inlinks, outlinks, noOutlinks) && |prev| == |outlinks|
    ensures SafeTables(inlinks, outlinks, noOutlinks)
    ensures Sum(InlinkMasses(inlinks, outlinks, prev)) + SumAt(noOutlinks, prev) == Sum(prev)
  {
    ReceivedIsLive(inlinks, outlinks, noOutlinks, prev);
    DanglingIsDead(inlinks, outlinks, noOutlinks, prev);
    LiveAndDead(outlinks, prev, |outlinks|);
    assert prev[..|outlinks|] == prev;
  }

  /** Each next rank is the teleportation share plus the damped received and dangling mass. */
  lemma StepEntries(inlinks: seq<seq<nat>>, outlinks: seq<nat>, noOutlinks: seq<nat>, prev: seq<real>, lamb: real)
    requires SafeTables(inlinks, outlinks, noOutlinks) && |prev| == |outlinks| > 0
    ensures StepSpec(inlinks, outlinks, noOutlinks, prev, lamb) ==
      AffineMap(lamb / (|outlinks| as real), 1.0 - lamb, DanglingMass(noOutlinks, prev, |outlinks|), InlinkMasses(inlinks, outlinks, prev))
  {
    var bigN := |outlinks|;
    var dm := DanglingMass(noOutlinks, prev, bigN);
    var next := StepSpec(inlinks, outlinks, noOutlinks, prev, lamb);
    var m := AffineMap(lamb / (bigN as real), 1.0 - lamb, dm, InlinkMasses(inlinks, outlinks, prev));
    forall v | 0 <= v < bigN ensures next[v] == m[v] {
      assert next[v] == SumInlinks(v, inlinks, outlinks, prev, lamb, bigN, dm);
    }
  }

  /**
   * The arithmetic of conservation on the entries alone: n entries, each the
   * share lamb / n plus the damped received amount and dangling share, add up
   * to lamb plus the damped total when the dangling share is the n-th part of
   * the dangling mass.
   */
  lemma AffineMass(x: seq<real>, n: nat, lamb: real, dm: real, dangling: real, mass: real)
    requires |x| == n > 0 && dm == 1.0 / (n as real) * dangling && Sum(x) + dangling == mass
    ensures Sum(AffineMap(lamb / (n as real), 1.0 - lamb, dm, x)) == lamb + (1.0 - lamb) * mass
  {
    SumAffineMap(lamb / (n as real), 1.0 - lamb, dm, x);
    Regroup(Sum(AffineMap(lamb / (n as real), 1.0 - lamb, dm, x)), |x| as real, n as real, lamb, Sum(x), dm, dangling, mass);
  }

  /** `AffineMass` on the totals alone. */
  lemma Regroup(total: real, size: real, k: real, lamb: real, received: real, dm: real, dangling: real, mass: real)
    requires k > 0.0 && total == size * (lamb / k) + (1.0 - lamb) * (received + size * dm)
    requires size == k && dm == 1.0 / k * dangling && received + dangling == mass
    ensures total == lamb + (1.0 - lamb) * mass
  {
    ShareBack(k, lamb, lamb / k);
    ShareBack(k, dangling, dm);
    Recombine(total, size, k, lamb / k, 1.0 - lamb, received, dm, lamb, dangling, mass);
  }

  /** Multiplying back what was divided by a positive count. */
  lemma ShareBack(n: real, x: real, q: real)
    requires n > 0.0 && (q == x / n || q == 1.0 / n * x)
    ensures n * q == x
  {
    if q == 1.0 / n * x {
      assert n * (1.0 / n * x) == (n * (1.0 / n)) * x;
    }
  }

  /** The affine total regrouped: n shares of lamb / n, damping of the received mass and n dangling shares. */
  lemma Recombine(total: real, size: real, k: real, share: real, damping: real, received: real, dm: real,
                  lamb: real, dangling: real, mass: real)
    requires total == size * share + damping * (received + size * dm)
    requires size == k && k * share == lamb && k * dm == dangling && damping == 1.0 - lamb && received + dangling == mass
    ensures total == lamb + (1.0 - lamb) * mass
  {
  }

  /** Conservation for any received vector that, with the dangling ranks, carries the previous mass. */
  lemma DampedMass(x: seq<real>, noOutlinks: seq<nat>, prev: seq<real>, lamb: real, n: nat)
    requires |x| == |prev| == n > 0 && forall k :: 0 <= k < |noOutlinks| ==> noOutlinks[k] < |prev|
    requires Sum(x) + SumAt(noOutlinks, prev) == Sum(prev)
    ensures Sum(AffineMap(lamb / (n as real), 1.0 - lamb, DanglingMass(noOutlinks, prev, n), x)) == lamb + (1.0 - lamb) * Sum(prev)
  {
    AffineMass(x, n, lamb, DanglingMass(noOutlinks, prev, n), SumAt(noOutlinks, prev), Sum(prev));
  }

  lemma StepSum(inlinks: seq<seq<nat>>, outlinks: seq<nat>, noOutlinks: seq<nat>, prev: seq<real>, lamb: real)
    requires SafeTables(inlinks, outlinks, noOutlinks) && |prev| == |outlinks| > 0
    ensures Sum(StepSpec(inlinks, outlinks, noOutlinks, prev, lamb)) ==
      Sum(AffineMap(lamb / (|outlinks| as real), 1.0 - lamb, DanglingMass(noOutlinks, prev, |outlinks|), InlinkMasses(inlinks, outlinks, prev)))
  {
    StepEntries(inlinks, outlinks, noOutlinks, prev, lamb);
  }

  /** A step passes on exactly what the edges and the dangling list carry, damped, plus lamb. */
  lemma StepMassFromSplit(inlinks: seq<seq<nat>>, outlinks: seq<nat>, noOutlinks: seq<nat>, prev: seq<real>, lamb: real)
    requires SafeTables(inlinks, outlinks, noOutlinks) && |prev| == |outlinks| > 0
    requires Sum(InlinkMasses(inlinks, outlinks, prev)) + SumAt(noOutlinks, prev) == Sum(prev)
    ensures Sum(StepSpec(inlinks, outlinks, noOutlinks, prev, lamb)) == lamb + (1.0 - lamb) * Sum(prev)
  {
    StepSum(inlinks, outlinks, noOutlinks, prev, lamb);
    DampedMass(InlinkMasses(inlinks, outlinks, prev), noOutlinks, prev, lamb, |outlinks|);
  }

  /**
   * Conservation of rank: with consistent tables a step keeps the teleported
   * share lamb and passes on (1 - lamb) of the whole previous mass, the
   * dangling part spread evenly and the rest along the edges.
   */
  lemma StepMass(inlinks: seq<seq<nat>>, outlinks: seq<nat>, noOutlinks: seq<nat>, prev: seq<real>, lamb: real)
    requires Consistent(inlinks, outlinks, noOutlinks) && |prev| == |outlinks| > 0
    ensures SafeTables(inlinks, outlinks, noOutlinks)
    ensures Sum(StepSpec(inlinks, outlinks, noOutlinks, prev, lamb)) == lamb + (1.0 - lamb) * Sum(prev)
  {
    MassSplit(inlinks, outlinks, noOutlinks, prev);
    StepMassFromSplit(inlinks, outlinks, noOutlinks, prev, lamb);
  }

  /** A sequence of n copies of c adds up to n * c. */
  lemma {:induction false} SumConstant(s: seq<real>, c: real)
    requires forall i :: 0 <= i < |s| ==> s[i] == c
    ensures Sum(s) == (|s| as real) * c
  {
    if s != [] {
      var n := |s| - 1;
      SumConstant(s[..n], c);
      ConstSnoc(n as real, |s| as real, c, Sum(s[..n]), Sum(s));
    }
  }

  lemma ConstSnoc(k: real, k1: real, c: real, before: real, after: real)
    requires before == k * c && k1 == k + 1.0 && after == before + c
    ensures after == k1 * c
  {
  }

  /** The initial vector is a distribution: its n shares of 1/n add up to 1. */
  lemma UniformMass(n: nat)
    requires n > 0
    ensures Sum(Uniform(n)) == 1.0
    ensures NonNegative(Uniform(n))
  {
    SumConstant(Uniform(n), 1.0 / (n as real));
    ShareBack(n as real, 1.0, 1.0 / (n as real));
  }

  /** The mass law for a previous mass of 1: the next mass is 1 as well. */
  lemma DampedOne(x: seq<real>, noOutlinks: seq<nat>, prev: seq<real>, lamb: real, n: nat)
    requires |x| == |prev| == n > 0 && forall k :: 0 <= k < |noOutlinks| ==> noOutlinks[k] < |prev|
    requires Sum(x) + SumAt(noOutlinks, prev) == Sum(prev) && Sum(prev) == 1.0
    ensures Sum(AffineMap(lamb / (n as real), 1.0 - lamb, DanglingMass(noOutlinks, prev, n), x)) == 1.0
  {
    DampedMass(x, noOutlinks, prev, lamb, n);
  }

  /** A step maps a distribution to a distribution. */
  lemma StepKeepsOne(inlinks: seq<seq<nat>>, outlinks: seq<nat>, noOutlinks: seq<nat>, prev: seq<real>, lamb: real)
    requires Consistent(inlinks, outlinks, noOutlinks) && |prev| == |outlinks| > 0 && Sum(prev) == 1.0
    ensures SafeTables(inlinks, outlinks, noOutlinks)
    ensures Sum(StepSpec(inlinks, outlinks, noOutlinks, prev, lamb)) == 1.0
  {
    MassSplit(inlinks, outlinks, noOutlinks, prev);
    StepSum(inlinks, outlinks, noOutlinks, prev, lamb);
    DampedOne(InlinkMasses(inlinks, outlinks, prev), noOutlinks, prev, lamb, |outlinks|);
  }

  /** Starting from a distribution, every iterate is a distribution. */
  lemma {:induction false} IterateMass(inlinks: seq<seq<nat>>, outlinks: seq<nat>, noOutlinks: seq<nat>,
                                       start: seq<real>, lamb: real, steps: nat)
    requires Consistent(inlinks, outlinks, noOutlinks) && |start| == |outlinks| > 0 && Sum(start) == 1.0
    ensures SafeTables(inlinks, outlinks, noOutlinks)
    ensures Sum(Iterate(inlinks, outlinks, noOutlinks, start, lamb, steps)) == 1.0
  {
    ConsistentSafe(inlinks, outlinks, noOutlinks);
    if steps > 0 {
      IterateMass(inlinks, outlinks, noOutlinks, start, lamb, steps - 1);
      StepKeepsOne(inlinks, outlinks, noOutlinks, Iterate(inlinks, outlinks, noOutlinks, start, lamb, steps - 1), lamb);
    }
  }
}
