/**
 * Name interning: every distinct page name in the edge list gets the next
 * integer id, in order of first appearance (source before target on each
 * line), and the reverse table from ids back to names.
 */
module LinkIds {
  import opened Wrappers

  /** The tokens of one input line, as `str.split()` returns them. */
  type Line = seq<string>

  /** A line with fewer than two tokens makes `pair[1]` (or `pair[0]`) fail. */
  datatype LoadError = MissingToken(line: nat)

  predicate WellFormed(lines: seq<Line>)
  {
    forall i :: 0 <= i < |lines| ==> |lines[i]| >= 2
  }

  /** The index of the first line that has fewer than two tokens. */
  function FirstMalformed(lines: seq<Line>): (i: nat)
    requires !WellFormed(lines)
    ensures i < |lines| && |lines[i]| < 2
    ensures forall j :: 0 <= j < i ==> |lines[j]| >= 2
  {
    if |lines[0]| < 2 then 0
    else
      assert !WellFormed(lines[1..]) by {
        var j :| 0 <= j < |lines| && |lines[j]| < 2;
        assert lines[1..][j - 1] == lines[j];
      }
      1 + FirstMalformed(lines[1..])
  }

  predicate Distinct<T(==)>(s: seq<T>)
  {
    forall i, j :: 0 <= i < j < |s| ==> s[i] != s[j]
  }

  /** The first `n` lines all have at least two tokens. */
  predicate WellFormedUpTo(lines: seq<Line>, n: nat)
  {
    n <= |lines| && forall i :: 0 <= i < n ==> |lines[i]| >= 2
  }

  /** The token stream of the first `n` lines in scanning order: source, then target. */
  function TokensUpTo(lines: seq<Line>, n: nat): (ts: seq<string>)
    requires WellFormedUpTo(lines, n)
    ensures |ts| == 2 * n
  {
    if n == 0 then [] else TokensUpTo(lines, n - 1) + [lines[n - 1][0], lines[n - 1][1]]
  }

  function Tokens(lines: seq<Line>): seq<string>
    requires WellFormed(lines)
  {
    TokensUpTo(lines, |lines|)
  }

  /** The position of the first occurrence of `x` in `s`. */
  function FirstIndex(s: seq<string>, x: string): (k: nat)
    requires x in s
    ensures k < |s| && s[k] == x
  {
    if s[0] == x then 0 else 1 + FirstIndex(s[1..], x)
  }

  /** No occurrence of `x` comes before its first index. */
  lemma {:induction false} FirstIndexFirst(s: seq<string>, x: string)
    requires x in s
    ensures forall j :: 0 <= j < FirstIndex(s, x) ==> s[j] != x
  {
    if s[0] != x {
      FirstIndexFirst(s[1..], x);
      assert forall j :: 1 <= j < |s| ==> s[1..][j - 1] == s[j];
    }
  }

  /** `names` extended by `s` when `s` has not been seen yet. */
  function AddName(names: seq<string>, s: string): seq<string>
  {
    if s in names then names else names + [s]
  }

  /** The names of the first `n` lines, in the order in which the interning loop numbers them. */
  function SeenUpTo(lines: seq<Line>, n: nat): seq<string>
    requires WellFormedUpTo(lines, n)
  {
    if n == 0 then []
    else AddName(AddName(SeenUpTo(lines, n - 1), lines[n - 1][0]), lines[n - 1][1])
  }

  function FirstSeen(lines: seq<Line>): seq<string>
    requires WellFormed(lines)
  {
    SeenUpTo(lines, |lines|)
  }

  /**
   * The name-to-id dict `ids` together with its insertion order `names`;
   * the id of a name is its position in `names`.
   */
  datatype LinkIds = LinkIds(ids: map<string, nat>, names: seq<string>)
  {
    predicate Valid()
    {
      && (forall i :: 0 <= i < |names| ==> names[i] in ids && ids[names[i]] == i)
      && (forall s :: s in ids ==> ids[s] < |names| && names[ids[s]] == s)
    }
  }

  /** Giving a new name the next id keeps the table valid. */
  lemma Intern(ids: map<string, nat>, names: seq<string>, s: string)
    requires LinkIds(ids, names).Valid() && s !in ids
    ensures LinkIds(ids[s := |names|], names + [s]).Valid()
    ensures s !in names
  {
  }

  /**
   * The interning loop. It stops at the first line with fewer than two
   * tokens; otherwise the ids it hands out are the positions in `FirstSeen`.
   */
  method CreateLinkIds(lines: seq<Line>) returns (r: Result<LinkIds, LoadError>)
    ensures WellFormed(lines) ==> r.Ok? && r.value.Valid() && r.value.names == FirstSeen(lines)
    ensures !WellFormed(lines) ==> r == Err(MissingToken(FirstMalformed(lines)))
  {
    var linkids: map<string, nat> := map[];
    var order: seq<string> := [];
    var cnt: nat := 0;
    var i := 0;
    while i < |lines|
      invariant WellFormedUpTo(lines, i)
      invariant cnt == |order|
      invariant LinkIds(linkids, order).Valid()
      invariant order == SeenUpTo(lines, i)
    {
      var pair := lines[i];
      if |pair| < 2 {
        FirstMalformedAt(lines, i);
        return Err(MissingToken(i));
      }
      var src, target := pair[0], pair[1];
      SeenStep(lines, i);
      ValidHas(linkids, order, src);
      if src !in linkids {
        Intern(linkids, order, src);
        linkids := linkids[src := cnt];
        order := order + [src];
        cnt := cnt + 1;
      }
      ValidHas(linkids, order, target);
      if target !in linkids {
        Intern(linkids, order, target);
        linkids := linkids[target := cnt];
        order := order + [target];
        cnt := cnt + 1;
      }
      i := i + 1;
    }
    return Ok(LinkIds(linkids, order));
  }

  /** In a valid table the dict and the insertion order hold the same names. */
  lemma ValidHas(ids: map<string, nat>, names: seq<string>, s: string)
    requires LinkIds(ids, names).Valid()
    ensures s in ids <==> s in names
  {
    if s in names {
      var i :| 0 <= i < |names| && names[i] == s;
    }
  }

  /** The loop meets its first short line at `i` exactly when that line is the first malformed one. */
  lemma FirstMalformedAt(lines: seq<Line>, i: nat)
    requires WellFormedUpTo(lines, i) && i < |lines| && |lines[i]| < 2
    ensures !WellFormed(lines) && FirstMalformed(lines) == i
  {
  }

  /** One more well-formed line: its source, then its target, are added to the names. */
  lemma SeenStep(lines: seq<Line>, i: nat)
    requires WellFormedUpTo(lines, i) && i < |lines| && |lines[i]| >= 2
    ensures WellFormedUpTo(lines, i + 1)
    ensures SeenUpTo(lines, i + 1) == AddName(AddName(SeenUpTo(lines, i), lines[i][0]), lines[i][1])
  {
  }

  lemma FirstIndexExtend(s: seq<string>, x: string, y: string)
    requires y in s
    ensures FirstIndex(s + [x], y) == FirstIndex(s, y)
  {
    var k := FirstIndex(s, y);
    FirstIndexFirst(s, y);
    FirstIndexFirst(s + [x], y);
    assert (s + [x])[k] == y;
    assert forall j :: 0 <= j < k ==> (s + [x])[j] == s[j];
  }

  lemma FirstIndexNew(s: seq<string>, x: string)
    requires x !in s
    ensures FirstIndex(s + [x], x) == |s|
  {
    assert (s + [x])[|s|] == x;
  }

  /**
   * `names` numbers the tokens `ts` in first-seen order: the names are
   * distinct, they are exactly the tokens, and a name with a smaller id
   * first appears earlier in `ts`.
   */
  ghost predicate NumberedBy(names: seq<string>, ts: seq<string>)
  {
    && Distinct(names)
    && (forall s :: s in names <==> s in ts)
    && (forall i, j :: 0 <= i < j < |names| ==> FirstIndex(ts, names[i]) < FirstIndex(ts, names[j]))
  }

  lemma NumberedByAdd(names: seq<string>, ts: seq<string>, x: string)
    requires NumberedBy(names, ts)
    ensures NumberedBy(AddName(names, x), ts + [x])
  {
    if x in names {
      NumberedBySeen(names, ts, x);
    } else {
      NumberedByNew(names, ts, x);
    }
  }

  /** A token already named changes no first index. */
  lemma NumberedBySeen(names: seq<string>, ts: seq<string>, x: string)
    requires NumberedBy(names, ts) && x in names
    ensures NumberedBy(names, ts + [x])
  {
    forall i, j | 0 <= i < j < |names|
      ensures FirstIndex(ts + [x], names[i]) < FirstIndex(ts + [x], names[j])
    {
      FirstIndexExtend(ts, x, names[i]);
      FirstIndexExtend(ts, x, names[j]);
    }
  }

  /** A new token is named last, and its first index is the last position. */
  lemma NumberedByNew(names: seq<string>, ts: seq<string>, x: string)
    requires NumberedBy(names, ts) && x !in names
    ensures NumberedBy(names + [x], ts + [x])
  {
    var n2 := names + [x];
    FirstIndexNew(ts, x);
    forall i, j | 0 <= i < j < |n2|
      ensures FirstIndex(ts + [x], n2[i]) < FirstIndex(ts + [x], n2[j])
    {
      assert n2[i] == names[i];
      FirstIndexExtend(ts, x, names[i]);
      if j < |names| {
        assert n2[j] == names[j];
        FirstIndexExtend(ts, x, names[j]);
      }
    }
    assert forall s :: s in n2 <==> s in names || s == x;
  }

  /**
   * The ids are first-seen ids: the names are distinct, they are exactly the
   * tokens of the input, and a name with a smaller id first appears earlier
   * in the source-then-target token stream.
   */
  lemma {:induction false} FirstSeenOrder(lines: seq<Line>)
    requires WellFormed(lines)
    ensures Distinct(FirstSeen(lines))
    ensures forall s :: s in FirstSeen(lines) <==> s in Tokens(lines)
    ensures forall i, j :: 0 <= i < j < |FirstSeen(lines)| ==>
      FirstIndex(Tokens(lines), FirstSeen(lines)[i]) < FirstIndex(Tokens(lines), FirstSeen(lines)[j])
  {
    SeenUpToNumbered(lines, |lines|);
  }

  lemma {:induction false} SeenUpToNumbered(lines: seq<Line>, n: nat)
    requires WellFormedUpTo(lines, n)
    ensures NumberedBy(SeenUpTo(lines, n), TokensUpTo(lines, n))
  {
    if n > 0 {
      SeenUpToNumbered(lines, n - 1);
      NumberedByLine(SeenUpTo(lines, n - 1), TokensUpTo(lines, n - 1), lines[n - 1][0], lines[n - 1][1]);
      LastLine(lines, n);
    }
  }

  /** A line's source and then its target, added to a numbering, give a numbering. */
  lemma NumberedByLine(names: seq<string>, ts: seq<string>, src: string, target: string)
    requires NumberedBy(names, ts)
    ensures NumberedBy(AddName(AddName(names, src), target), ts + [src] + [target])
  {
    NumberedByAdd(names, ts, src);
    NumberedByAdd(AddName(names, src), ts + [src], target);
  }

  /** The last of the first `n` lines adds its source, then its target, to the names and to the tokens. */
  lemma LastLine(lines: seq<Line>, n: nat)
    requires 0 < n && WellFormedUpTo(lines, n)
    ensures WellFormedUpTo(lines, n - 1)
    ensures SeenUpTo(lines, n) == AddName(AddName(SeenUpTo(lines, n - 1), lines[n - 1][0]), lines[n - 1][1])
    ensures TokensUpTo(lines, n) == TokensUpTo(lines, n - 1) + [lines[n - 1][0]] + [lines[n - 1][1]]
  {
  }

  /** Both names of each of the first `n` lines are in the token stream. */
  lemma {:induction false} TokensHoldLines(lines: seq<Line>, n: nat)
    requires WellFormedUpTo(lines, n)
    ensures forall i :: 0 <= i < n ==> lines[i][0] in TokensUpTo(lines, n) && lines[i][1] in TokensUpTo(lines, n)
  {
    if n > 0 {
      TokensHoldLines(lines, n - 1);
      var before := TokensUpTo(lines, n - 1);
      assert TokensUpTo(lines, n) == before + [lines[n - 1][0], lines[n - 1][1]];
      assert forall t :: t in before ==> t in TokensUpTo(lines, n);
      assert TokensUpTo(lines, n)[|before|] == lines[n - 1][0];
      assert TokensUpTo(lines, n)[|before| + 1] == lines[n - 1][1];
    }
  }

  /** Two inputs whose lines agree on their first two tokens; any further tokens may differ. */
  predicate SameEdges(a: seq<Line>, b: seq<Line>)
  {
    |a| == |b| && WellFormed(a) && WellFormed(b) &&
    forall i :: 0 <= i < |a| ==> a[i][0] == b[i][0] && a[i][1] == b[i][1]
  }

  /** Every line cut down to its source and target tokens. */
  function Trimmed(lines: seq<Line>): seq<Line>
    requires WellFormed(lines)
  {
    seq(|lines|, i requires 0 <= i < |lines| => lines[i][..2])
  }

  /** The cut lines keep each line's source and target and nothing after them. */
  lemma TrimmedSameEdges(lines: seq<Line>)
    requires WellFormed(lines)
    ensures SameEdges(lines, Trimmed(lines))
    ensures forall i :: 0 <= i < |lines| ==> |Trimmed(lines)[i]| == 2
  {
  }

  /** Interning a line reads only its first two tokens. */
  lemma {:induction false} SeenTrimmed(lines: seq<Line>, n: nat)
    requires WellFormed(lines) && n <= |lines|
    ensures WellFormed(Trimmed(lines))
    ensures SeenUpTo(lines, n) == SeenUpTo(Trimmed(lines), n)
  {
    if n > 0 {
      SeenTrimmed(lines, n - 1);
      assert Trimmed(lines)[n - 1] == lines[n - 1][..2];
    }
  }

  /** Two inputs that agree on every line's first two tokens cut down to the same lines. */
  lemma TrimmedSame(a: seq<Line>, b: seq<Line>)
    requires SameEdges(a, b)
    ensures Trimmed(a) == Trimmed(b)
  {
    forall i | 0 <= i < |a| ensures Trimmed(a)[i] == Trimmed(b)[i] {
      assert a[i][..2] == [a[i][0], a[i][1]];
      assert b[i][..2] == [b[i][0], b[i][1]];
    }
  }

  /** Tokens after the second leave the name table unchanged. */
  lemma ExtraTokensIgnored(a: seq<Line>, b: seq<Line>)
    requires SameEdges(a, b)
    ensures FirstSeen(a) == FirstSeen(b)
  {
    SeenTrimmed(a, |a|);
    SeenTrimmed(b, |b|);
    TrimmedSame(a, b);
  }

  /** Every name on every line gets an id. */
  lemma LineNamesSeen(lines: seq<Line>)
    requires WellFormed(lines)
    ensures forall i :: 0 <= i < |lines| ==> lines[i][0] in FirstSeen(lines) && lines[i][1] in FirstSeen(lines)
  {
    FirstSeenOrder(lines);
    TokensHoldLines(lines, |lines|);
  }

  /** A line whose two names were already seen leaves the numbering unchanged. */
  lemma SeenLineAddsNothing(lines: seq<Line>, line: Line)
    requires WellFormed(lines) && |line| >= 2
    requires line[0] in FirstSeen(lines) && line[1] in FirstSeen(lines)
    ensures WellFormed(lines + [line]) && FirstSeen(lines + [line]) == FirstSeen(lines)
  {
    Appended(lines, line);
    SeenStep(lines + [line], |lines|);
  }

  /** Appending a line leaves what the earlier lines yield unchanged. */
  lemma Appended(lines: seq<Line>, line: Line)
    requires WellFormed(lines) && |line| >= 2
    ensures WellFormed(lines + [line]) && (lines + [line])[|lines|] == line
    ensures WellFormedUpTo(lines + [line], |lines|) && SeenUpTo(lines + [line], |lines|) == FirstSeen(lines)
  {
    assert (lines + [line])[..|lines|] == lines[..|lines|];
    SeenUpToPrefix(lines, lines + [line], |lines|);
  }

  /** What the first `n` lines yield depends on those lines alone. */
  lemma {:induction false} SeenUpToPrefix(lines: seq<Line>, other: seq<Line>, n: nat)
    requires WellFormedUpTo(lines, n) && n <= |other| && lines[..n] == other[..n]
    ensures WellFormedUpTo(other, n) && SeenUpTo(lines, n) == SeenUpTo(other, n)
  {
    assert forall i :: 0 <= i < n ==> lines[i] == lines[..n][i] == other[..n][i] == other[i];
    if n > 0 {
      assert lines[..n - 1] == lines[..n][..n - 1];
      assert other[..n - 1] == other[..n][..n - 1];
      SeenUpToPrefix(lines, other, n - 1);
    }
  }

  lemma {:induction false} DistinctCard<T>(s: seq<T>)
    requires Distinct(s)
    ensures |set x | x in s| == |s|
  {
    if s != [] {
      var p := s[..|s| - 1];
      DistinctCard(p);
      assert (set x | x in s) == (set x | x in p) + {s[|s| - 1]};
    }
  }

  /** The ids 0..n-1 in ascending order. */
  function Indices(n: nat): (ix: seq<nat>)
    ensures |ix| == n && (forall k :: 0 <= k < n ==> ix[k] == k)
    ensures Distinct(ix)
    ensures forall id: nat :: id in ix <==> id < n
  {
    if n == 0 then [] else Indices(n - 1) + [n - 1]
  }

  /** A valid table maps its |names| keys one-to-one onto the ids 0..n-1. */
  lemma DenseIds(t: LinkIds)
    requires t.Valid()
    ensures |t.ids| == |t.names| && |t.ids.Values| == |t.names|
    ensures forall id: nat :: id in t.ids.Values <==> id < |t.names|
    ensures Distinct(t.names)
  {
    assert t.ids.Keys == set x | x in t.names;
    DistinctCard(t.names);
    forall id: nat | id < |t.names| ensures id in t.ids.Values {
      assert t.ids[t.names[id]] == id;
    }
    var ix := Indices(|t.names|);
    var range := set id: nat | id in ix;
    assert t.ids.Values == range;
    DistinctCard(ix);
    assert |range| == |t.names|;
  }

  /** `get_reverse_name_id`: the dict comprehension that swaps keys and values. */
  function ReverseNameId(t: LinkIds): (rev: map<nat, string>)
    requires t.Valid()
    ensures forall s :: s in t.ids ==> t.ids[s] in rev && rev[t.ids[s]] == s
    ensures forall id :: id in rev ==> rev[id] in t.ids && t.ids[rev[id]] == id
    ensures |rev| == |t.ids|
  {
    var rev := map s | s in t.ids :: t.ids[s] := s;
    assert rev.Keys == t.ids.Values;
    DenseIds(t);
    assert |rev| == |rev.Keys|;
    rev
  }
}
