/**
 Collapse (q-base/src/Collapse.c): two weighted sorted buffers become one.
 */
module BufferCollapse {
  import opened Arithmetic
  import opened Ranks

  /** The values `vals[i]`, each written out `ws[i]` times, in order. */
  ghost function Spread(vals: seq<int>, ws: seq<nat>): seq<int>
    requires |vals| == |ws|
  {
    if vals == [] then []
    else Spread(vals[..|vals|-1], ws[..|ws|-1]) + Repeat(vals[|vals|-1], ws[|ws|-1])
  }

  /** The effective content of two buffers: every element as often as its buffer's weight says. */
  function Pool(b1: seq<int>, w1: nat, b2: seq<int>, w2: nat): seq<int> {
    Expand(b1, w1) + Expand(b2, w2)
  }

  lemma PoolCount(b1: seq<int>, w1: nat, b2: seq<int>, w2: nat, v: int)
    ensures |Pool(b1, w1, b2, w2)| == Scale(w1, |b1|) + Scale(w2, |b2|)
    ensures CountLE(Pool(b1, w1, b2, w2), v) == Scale(w1, CountLE(b1, v)) + Scale(w2, CountLE(b2, v))
  {
    CountConcat(Expand(b1, w1), Expand(b2, w2), v);
    CountExpand(b1, w1, v);
    CountExpand(b2, w2, v);
  }

  lemma SpreadAppend(vals: seq<int>, ws: seq<nat>, x: int, w: nat)
    requires |vals| == |ws|
    ensures Spread(vals + [x], ws + [w]) == Spread(vals, ws) + Repeat(x, w)
  {
    assert (vals + [x])[..|vals|] == vals && (ws + [w])[..|ws|] == ws;
  }

  // ----- merging

  /** `e` is the sorted pool of two prefixes whose remainders it does not exceed. */
  ghost predicate Merged(e: seq<int>, s1: seq<int>, w1: nat, i: nat, s2: seq<int>, w2: nat, j: nat)
    requires i <= |s1| && j <= |s2|
  {
    && Sorted(e)
    && (forall n :: 0 <= n < |e| ==> (i < |s1| ==> e[n] <= s1[i]) && (j < |s2| ==> e[n] <= s2[j]))
    && (forall v {:trigger Balanced(e, s1, w1, i, s2, w2, j, v)} :: Balanced(e, s1, w1, i, s2, w2, j, v))
  }

  /** As many elements up to `v` on both sides. */
  ghost predicate Balanced(e: seq<int>, s1: seq<int>, w1: nat, i: nat, s2: seq<int>, w2: nat, j: nat, v: int)
    requires i <= |s1| && j <= |s2|
  {
    CountLE(e, v) == CountLE(Expand(s1[..i], w1), v) + CountLE(Expand(s2[..j], w2), v)
  }

  lemma MergeSymmetric(e: seq<int>, s1: seq<int>, w1: nat, i: nat, s2: seq<int>, w2: nat, j: nat)
    requires i <= |s1| && j <= |s2| && Merged(e, s1, w1, i, s2, w2, j)
    ensures Merged(e, s2, w2, j, s1, w1, i)
  {
    forall v: int ensures Balanced(e, s2, w2, j, s1, w1, i, v) { assert Balanced(e, s1, w1, i, s2, w2, j, v); }
  }

  /** Growing a merged prefix by its next element adds that element as often as its weight says. */
  lemma CountGrown(e: seq<int>, s: seq<int>, i: nat, w: nat, other: nat, v: int)
    requires i < |s|
    requires CountLE(e, v) == CountLE(Expand(s[..i], w), v) + other
    ensures CountLE(e + Repeat(s[i], w), v) == CountLE(Expand(s[..i+1], w), v) + other
  {
    assert s[..i+1][..i] == s[..i];
    CountConcat(e, Repeat(s[i], w), v);
    CountConcat(Expand(s[..i], w), Repeat(s[i], w), v);
  }

  /** Taking the smaller head keeps the merge. */
  lemma MergeStep(e: seq<int>, s1: seq<int>, w1: nat, i: nat, s2: seq<int>, w2: nat, j: nat)
    requires i < |s1| && j <= |s2| && Sorted(s1) && Merged(e, s1, w1, i, s2, w2, j)
    requires j < |s2| ==> s1[i] <= s2[j]
    ensures Merged(e + Repeat(s1[i], w1), s1, w1, i + 1, s2, w2, j)
  {
    var e', next := e + Repeat(s1[i], w1), i + 1;
    forall v: int ensures Balanced(e', s1, w1, next, s2, w2, j, v) {
      assert Balanced(e, s1, w1, i, s2, w2, j, v);
      CountGrown(e, s1, i, w1, CountLE(Expand(s2[..j], w2), v), v);
    }
  }

  lemma MergeDone(e: seq<int>, s1: seq<int>, w1: nat, s2: seq<int>, w2: nat)
    requires Merged(e, s1, w1, |s1|, s2, w2, |s2|)
    ensures e == Sort(Pool(s1, w1, s2, w2))
  {
    assert s1[..|s1|] == s1 && s2[..|s2|] == s2;
    forall v ensures CountLE(e, v) == CountLE(Pool(s1, w1, s2, w2), v) {
      assert Balanced(e, s1, w1, |s1|, s2, w2, |s2|, v);
      CountConcat(Expand(s1, w1), Expand(s2, w2), v);
    }
    SameLength(e, Pool(s1, w1, s2, w2));
    SortUnique(e, Pool(s1, w1, s2, w2));
  }

  /** Equal counts at every value force equal lengths. */
  lemma SameLength(s: seq<int>, t: seq<int>)
    requires forall v :: CountLE(s, v) == CountLE(t, v)
    ensures |s| == |t|
  {
    var v := Upper(s + t);
    forall i | 0 <= i < |s| ensures s[i] <= v { assert (s + t)[i] <= v; }
    forall i | 0 <= i < |t| ensures t[i] <= v { assert (s + t)[|s| + i] <= v; }
    AllCounted(s, v);
    AllCounted(t, v);
  }

  ghost function Upper(s: seq<int>): (m: int)
    ensures forall i :: 0 <= i < |s| ==> s[i] <= m
  {
    if s == [] then 0
    else
      var s' := s[..|s|-1];
      var m := Upper(s');
      assert forall i :: 0 <= i < |s'| ==> s'[i] == s[i];
      if m >= s[|s|-1] then m else s[|s|-1]
  }

  method Push(tempBuffer: array<int>, tempWeight: array<nat>, kk: nat, x: int, w: nat)
    requires kk < tempBuffer.Length == tempWeight.Length
    modifies tempBuffer, tempWeight
    ensures tempBuffer[..kk+1] == old(tempBuffer[..kk]) + [x]
    ensures tempWeight[..kk+1] == old(tempWeight[..kk]) + [w]
  {
    tempBuffer[kk] := x;
    tempWeight[kk] := w;
  }

  /** The merge phase: the merged values, spread out by their weights, are the sorted pool of both buffers. */
  method Merge(buf1: array<int>, buf2: array<int>, w1: nat, w2: nat, k: nat)
    returns (tempBuffer: array<int>, tempWeight: array<nat>)
    requires buf1.Length == buf2.Length == k
    requires Sorted(buf1[..]) && Sorted(buf2[..])
    ensures fresh(tempBuffer) && fresh(tempWeight)
    ensures tempBuffer.Length == tempWeight.Length == 2 * k
    ensures Spread(tempBuffer[..], tempWeight[..]) == Sort(Pool(buf1[..], w1, buf2[..], w2))
  {
    tempBuffer := new int[2 * k];
    tempWeight := new nat[2 * k];
    ghost var vs, ws := MergeLoop(buf1, buf2, w1, w2, k, tempBuffer, tempWeight, buf1[..], buf2[..]);
    MergeDone(Spread(vs, ws), buf1[..], w1, buf2[..], w2);
  }

  method MergeLoop(buf1: array<int>, buf2: array<int>, w1: nat, w2: nat, k: nat, tempBuffer: array<int>,
                   tempWeight: array<nat>, ghost s1: seq<int>, ghost s2: seq<int>)
    returns (ghost vs: seq<int>, ghost ws: seq<nat>)
    requires buf1.Length == buf2.Length == k && tempBuffer.Length == tempWeight.Length == 2 * k
    requires buf1 != tempBuffer && buf2 != tempBuffer && s1 == buf1[..] && s2 == buf2[..] && Sorted(s1) && Sorted(s2)
    modifies tempBuffer, tempWeight
    ensures buf1[..] == s1 && buf2[..] == s2 && vs == tempBuffer[..] && ws == tempWeight[..]
    ensures MergedSoFar(vs, ws, s1, w1, |s1|, s2, w2, |s2|)
  {
    var ii, jj, kk := 0, 0, 0;
    vs, ws := [], [];
    while ii < k || jj < k
      invariant 0 <= ii <= k && 0 <= jj <= k && kk == ii + jj
      invariant buf1[..] == s1 && buf2[..] == s2 && vs == tempBuffer[..kk] && ws == tempWeight[..kk]
      invariant MergedSoFar(vs, ws, s1, w1, ii, s2, w2, jj)
      decreases 2 * k - kk
    {
      ii, jj, vs, ws := MergeOne(buf1, buf2, w1, w2, tempBuffer, tempWeight, ii, jj, kk, s1, s2, vs, ws);
      kk := kk + 1;
    }
    assert tempBuffer[..kk] == tempBuffer[..] && tempWeight[..kk] == tempWeight[..];
  }

  /** One element from the buffer with the smaller head, the first on a tie. */
  method MergeOne(buf1: array<int>, buf2: array<int>, w1: nat, w2: nat, tempBuffer: array<int>, tempWeight: array<nat>,
                  i0: nat, j0: nat, kk: nat,
                  ghost s1: seq<int>, ghost s2: seq<int>, ghost vs0: seq<int>, ghost ws0: seq<nat>)
    returns (ii: nat, jj: nat, ghost vs: seq<int>, ghost ws: seq<nat>)
    requires buf1 != tempBuffer && buf2 != tempBuffer && s1 == buf1[..] && s2 == buf2[..] && Sorted(s1) && Sorted(s2)
    requires i0 <= |s1| && j0 <= |s2| && i0 + j0 < |s1| + |s2| && kk == i0 + j0
    requires kk < tempBuffer.Length == tempWeight.Length
    requires vs0 == tempBuffer[..kk] && ws0 == tempWeight[..kk] && MergedSoFar(vs0, ws0, s1, w1, i0, s2, w2, j0)
    modifies tempBuffer, tempWeight
    ensures ii <= |s1| && jj <= |s2| && ii + jj == kk + 1 && vs == tempBuffer[..kk+1] && ws == tempWeight[..kk+1]
    ensures MergedSoFar(vs, ws, s1, w1, ii, s2, w2, jj)
  {
    ii, jj := i0, j0;
    if ii < buf1.Length && (jj == buf2.Length || buf1[ii] <= buf2[jj]) {
      TakeFirst(vs0, ws0, s1, w1, ii, s2, w2, jj);
      Push(tempBuffer, tempWeight, kk, buf1[ii], w1);
      vs, ws := vs0 + [s1[ii]], ws0 + [w1];
      ii := ii + 1;
    } else {
      TakeSecond(vs0, ws0, s1, w1, ii, s2, w2, jj);
      Push(tempBuffer, tempWeight, kk, buf2[jj], w2);
      vs, ws := vs0 + [s2[jj]], ws0 + [w2];
      jj := jj + 1;
    }
  }

  /** The state of the merge: what was written, spread out, merges the elements taken so far. */
  ghost predicate MergedSoFar(vs: seq<int>, ws: seq<nat>, s1: seq<int>, w1: nat, ii: nat, s2: seq<int>, w2: nat,
                              jj: nat) {
    |vs| == |ws| && ii <= |s1| && jj <= |s2| && Merged(Spread(vs, ws), s1, w1, ii, s2, w2, jj)
  }

  lemma TakeFirst(vs: seq<int>, ws: seq<nat>, s1: seq<int>, w1: nat, ii: nat, s2: seq<int>, w2: nat, jj: nat)
    requires Sorted(s1) && Sorted(s2) && ii < |s1| && MergedSoFar(vs, ws, s1, w1, ii, s2, w2, jj)
    requires (jj < |s2| ==> s1[ii] <= s2[jj])
    ensures MergedSoFar(vs + [s1[ii]], ws + [w1], s1, w1, ii + 1, s2, w2, jj)
  {
    MergeStep(Spread(vs, ws), s1, w1, ii, s2, w2, jj);
    SpreadAppend(vs, ws, s1[ii], w1);
  }

  lemma TakeSecond(vs: seq<int>, ws: seq<nat>, s1: seq<int>, w1: nat, ii: nat, s2: seq<int>, w2: nat, jj: nat)
    requires Sorted(s1) && Sorted(s2) && jj < |s2| && MergedSoFar(vs, ws, s1, w1, ii, s2, w2, jj)
    requires (ii < |s1| ==> s2[jj] <= s1[ii])
    ensures MergedSoFar(vs + [s2[jj]], ws + [w2], s1, w1, ii, s2, w2, jj + 1)
  {
    var e := Spread(vs, ws);
    MergeSymmetric(e, s1, w1, ii, s2, w2, jj);
    MergeStep(e, s2, w2, jj, s1, w1, ii);
    MergeSymmetric(e + Repeat(s2[jj], w2), s2, w2, jj + 1, s1, w1, ii);
    SpreadAppend(vs, ws, s2[jj], w2);
  }

  // ----- selecting

  lemma SpreadStep(vals: seq<int>, ws: seq<nat>, i: nat)
    requires |vals| == |ws| && i < |vals|
    ensures Spread(vals[..i+1], ws[..i+1]) == Spread(vals[..i], ws[..i]) + Repeat(vals[i], ws[i])
  {
    assert vals[..i+1] == vals[..i] + [vals[i]] && ws[..i+1] == ws[..i] + [ws[i]];
    SpreadAppend(vals[..i], ws[..i], vals[i], ws[i]);
  }

  /** The expansion of a prefix is a prefix of the expansion. */
  lemma {:induction false} SpreadPrefix(vals: seq<int>, ws: seq<nat>, i: nat)
    requires |vals| == |ws| && i <= |vals|
    ensures Spread(vals[..i], ws[..i]) <= Spread(vals, ws)
    decreases |vals| - i
  {
    if i == |vals| {
      assert vals[..i] == vals && ws[..i] == ws;
    } else {
      SpreadPrefix(vals, ws, i + 1);
      SpreadStep(vals, ws, i);
    }
  }

  /** The ranks past the first `i` expanded values and within the first `i + 1` all hold `vals[i]`. */
  lemma SpreadAt(vals: seq<int>, ws: seq<nat>, i: nat, r: nat)
    requires |vals| == |ws| && i < |vals|
    requires |Spread(vals[..i], ws[..i])| < r <= |Spread(vals[..i], ws[..i])| + ws[i]
    ensures r <= |Spread(vals, ws)| && Spread(vals, ws)[r - 1] == vals[i]
  {
    SpreadStep(vals, ws, i);
    SpreadPrefix(vals, ws, i + 1);
  }

  /** The rank (1-based) that slot `j` of the collapsed buffer picks out of the pool. */
  function PickRank(outWeight: nat, j: nat): nat {
    outWeight / 2 + Scale(outWeight, j)
  }

  /** The source's closed form of the rank. */
  lemma PickRankClosed(outWeight: nat, j: nat)
    ensures PickRank(outWeight, j) == outWeight / 2 + j * outWeight
  {
    ScaleIsProduct(outWeight, j);
  }

  /** Slots `0..n` of `out` hold the elements of `e` at the picked ranks. */
  ghost predicate Picked(out: seq<int>, e: seq<int>, outWeight: nat, n: nat)
    requires n <= |out|
  {
    forall j :: 0 <= j < n ==> 1 <= PickRank(outWeight, j) <= |e| && out[j] == e[PickRank(outWeight, j) - 1]
  }

  /** The selection phase: one pass over the merged weights picks rank `PickRank(j)` for every slot `j`. */
  method Select(tempBuffer: array<int>, tempWeight: array<nat>, outWeight: nat, k: nat, buf1: array<int>)
    requires outWeight >= 2 && buf1.Length == k
    requires tempBuffer.Length == tempWeight.Length == 2 * k
    requires buf1 != tempBuffer && buf1 as object != tempWeight
    requires |Spread(tempBuffer[..], tempWeight[..])| == Scale(outWeight, k)
    modifies buf1
    ensures Picked(buf1[..], old(Spread(tempBuffer[..], tempWeight[..])), outWeight, k)
  {
    ghost var vs, ws := tempBuffer[..], tempWeight[..];
    ghost var e := Spread(vs, ws);
    var ii, jj, kk := 0, 0, 0;
    while ii < 2 * k
      invariant 0 <= ii <= 2 * k && 0 <= jj <= k
      invariant tempBuffer[..] == vs && tempWeight[..] == ws
      invariant kk == |Spread(vs[..ii], ws[..ii])| < PickRank(outWeight, jj)
      invariant Picked(buf1[..], e, outWeight, jj)
    {
      SpreadStep(vs, ws, ii);
      kk := kk + tempWeight[ii];
      jj := Drain(tempBuffer[ii], kk, jj, outWeight, k, buf1, vs, ws, ii);
      ii := ii + 1;
    }
    assert vs[..ii] == vs && ws[..ii] == ws;
    if jj < k { ScaleMonotone(outWeight, jj + 1, k); }
  }

  /** The inner loop of the selection: every rank reached by the current value takes it. */
  method Drain(x: int, kk: nat, jj0: nat, outWeight: nat, k: nat, buf1: array<int>,
               ghost vs: seq<int>, ghost ws: seq<nat>, ghost ii: nat)
    returns (jj: nat)
    requires outWeight >= 2 && buf1.Length == k && jj0 <= k
    requires |vs| == |ws| && ii < |vs| && x == vs[ii]
    requires |Spread(vs, ws)| == Scale(outWeight, k)
    requires |Spread(vs[..ii], ws[..ii])| < PickRank(outWeight, jj0)
    requires kk == |Spread(vs[..ii], ws[..ii])| + ws[ii]
    requires Picked(buf1[..], Spread(vs, ws), outWeight, jj0)
    modifies buf1
    ensures jj <= k && kk < PickRank(outWeight, jj)
    ensures Picked(buf1[..], Spread(vs, ws), outWeight, jj)
  {
    jj := jj0;
    ghost var e := Spread(vs, ws);
    SpreadStep(vs, ws, ii);
    SpreadPrefix(vs, ws, ii + 1);
    while kk >= PickRank(outWeight, jj)  // offSet + jj * outWeight
      invariant jj <= k && |Spread(vs[..ii], ws[..ii])| < PickRank(outWeight, jj)
      invariant Picked(buf1[..], e, outWeight, jj)
      decreases k - jj
    {
      SpreadAt(vs, ws, ii, PickRank(outWeight, jj));
      ghost var before := buf1[..];
      buf1[jj] := x;
      PickedOne(before, buf1[..], e, outWeight, jj);
      jj := jj + 1;
    }
  }

  lemma PickedOne(before: seq<int>, after: seq<int>, e: seq<int>, outWeight: nat, n: nat)
    requires n < |before| == |after| && Picked(before, e, outWeight, n)
    requires 1 <= PickRank(outWeight, n) <= |e| && after == before[n := e[PickRank(outWeight, n) - 1]]
    ensures Picked(after, e, outWeight, n + 1)
  {}

  /** Slot `j` holds the element of rank `PickRank(j)` of the two buffers' pooled, sorted, effective content. */
  ghost predicate Picks(out: seq<int>, b1: seq<int>, w1: nat, b2: seq<int>, w2: nat) {
    |out| == |b1| == |b2| && Picked(out, Sort(Pool(b1, w1, b2, w2)), w1 + w2, |out|)
  }

  lemma SortedPoolLength(b1: seq<int>, w1: nat, b2: seq<int>, w2: nat)
    requires |b1| == |b2|
    ensures |Sort(Pool(b1, w1, b2, w2))| == Scale(w1 + w2, |b1|)
  {
    PoolCount(b1, w1, b2, w2, 0);
    SortFacts(Pool(b1, w1, b2, w2));
    ScaleSum(w1, w2, |b1|);
  }

  lemma {:induction false} ScaleSum(w1: nat, w2: nat, n: nat)
    ensures Scale(w1 + w2, n) == Scale(w1, n) + Scale(w2, n)
  {
    if n > 0 { ScaleSum(w1, w2, n - 1); }
  }

  /** The work on the buffers. */
  method MergeAndSelect(buf1: array<int>, buf2: array<int>, w1: nat, w2: nat, k: nat)
    requires buf1 != buf2 && buf1.Length == buf2.Length == k && w1 > 0 && w2 > 0
    requires Sorted(buf1[..]) && Sorted(buf2[..])
    modifies buf1
    ensures Picks(buf1[..], old(buf1[..]), w1, old(buf2[..]), w2)
  {
    var tempBuffer, tempWeight := Merge(buf1, buf2, w1, w2, k);
    SortedPoolLength(buf1[..], w1, buf2[..], w2);
    Select(tempBuffer, tempWeight, w1 + w2, k, buf1);
  }

  /**
   Collapse.c: fails only on a bad index or an unused buffer, and then changes
   nothing.  Otherwise the call is `defined` exactly when the sum of the
   weights fits an int, as in every run of the sketch over at most INT_MAX
   whole packets.
   */
  method Collapse(buf1: array<int>, buf2: array<int>, weight: array<int>, bufidx1: int, bufidx2: int, b: int, k: nat)
    returns (status: int, defined: bool)
    requires buf1 != buf2 && buf1 != weight && weight != buf2
    requires buf1.Length == buf2.Length == k && weight.Length == b
    requires Sorted(buf1[..]) && Sorted(buf2[..])
    modifies buf1, weight
    ensures status == 0 <==>
        0 <= bufidx1 < b && 0 <= bufidx2 < b && old(weight[bufidx1]) > 0 && old(weight[bufidx2]) > 0
    ensures status != 0 ==> status == -1 && buf1[..] == old(buf1[..]) && weight[..] == old(weight[..])
    ensures status == 0 ==> (defined <==> old(weight[bufidx1]) + old(weight[bufidx2]) <= INT_MAX)
    ensures status == 0 && defined ==>
      && weight[..] == old(weight[..])[bufidx1 := old(weight[bufidx1]) + old(weight[bufidx2])][bufidx2 := 0]
      && Picks(buf1[..], old(buf1[..]), old(weight[bufidx1]), old(buf2[..]), old(weight[bufidx2]))
  {
    status, defined := -1, true;
    if bufidx1 < 0 || bufidx1 >= b { return; }
    if bufidx2 < 0 || bufidx2 >= b { return; }
    if weight[bufidx1] <= 0 || weight[bufidx2] <= 0 { return; }
    var w1, w2 := weight[bufidx1], weight[bufidx2];
    status, defined := 0, w1 + w2 <= INT_MAX;
    if !defined { return; }
    MergeAndSelect(buf1, buf2, w1, w2, k);
    weight[bufidx1] := w1 + w2;
    weight[bufidx2] := 0;
  }

  // ----- what a collapse preserves

  /** A collapsed buffer stays sorted: later slots pick higher ranks. */
  lemma PicksSorted(out: seq<int>, b1: seq<int>, w1: nat, b2: seq<int>, w2: nat)
    requires Picks(out, b1, w1, b2, w2)
    ensures Sorted(out)
  {
    SortFacts(Pool(b1, w1, b2, w2));
    forall i, j | 0 <= i < j < |out| ensures out[i] <= out[j] {
      ScaleMonotone(w1 + w2, i, j);
    }
  }

  lemma EqualRank(w: nat, j: nat, c: nat)
    requires w > 0
    ensures PickRank(w + w, j) <= Scale(w, c) <==> 2 * j + 1 <= c
  {
    ScaleAdd(w, j, j);
    ScaleDouble(w, j);
    assert PickRank(w + w, j) == Scale(w, j + j + 1);
    if j + j + 1 <= c { ScaleMonotone(w, j + j + 1, c); } else { ScaleMonotone(w, c + 1, j + j + 1); }
  }

  /** A slot is at most `v` exactly when the pool's count at `v` reaches the slot's rank. */
  lemma PickAtMost(out: seq<int>, b1: seq<int>, w1: nat, b2: seq<int>, w2: nat, v: int, j: nat)
    requires Picks(out, b1, w1, b2, w2) && j < |out|
    ensures out[j] <= v <==> PickRank(w1 + w2, j) <= CountLE(Pool(b1, w1, b2, w2), v)
  {
    SortFacts(Pool(b1, w1, b2, w2));
    SortedThreshold(Sort(Pool(b1, w1, b2, w2)), v, PickRank(w1 + w2, j) - 1);
  }

  lemma EqualPoolCount(b1: seq<int>, b2: seq<int>, w: nat, v: int)
    ensures CountLE(Pool(b1, w, b2, w), v) == Scale(w, CountLE(b1, v) + CountLE(b2, v))
  {
    PoolCount(b1, w, b2, w, v);
    ScaleAdd(w, CountLE(b1, v), CountLE(b2, v));
  }

  /** Slot `j` of a collapse of equals is at most `v` exactly when more than `2j` pooled elements are. */
  lemma EqualPick(out: seq<int>, b1: seq<int>, b2: seq<int>, w: nat, v: int, j: nat)
    requires w > 0 && Picks(out, b1, w, b2, w) && j < |out|
    ensures out[j] <= v <==> 2 * j + 1 <= CountLE(b1, v) + CountLE(b2, v)
  {
    PickAtMost(out, b1, w, b2, w, v, j);
    EqualPoolCount(b1, b2, w, v);
    EqualRank(w, j, CountLE(b1, v) + CountLE(b2, v));
  }

  /** Every other one of the pooled elements at most `v` survives a collapse of equals. */
  lemma EqualCollapseCount(out: seq<int>, b1: seq<int>, b2: seq<int>, w: nat, v: int)
    requires w > 0 && Picks(out, b1, w, b2, w)
    ensures CountLE(out, v) == (CountLE(b1, v) + CountLE(b2, v) + 1) / 2
  {
    var m := (CountLE(b1, v) + CountLE(b2, v) + 1) / 2;
    CountBounded(b1, v);
    CountBounded(b2, v);
    forall j | 0 <= j < |out| ensures out[j] <= v <==> j < m {
      EqualPick(out, b1, b2, w, v, j);
    }
    CountFromThreshold(out, v, m);
  }

  /**
   The one-sided error of a collapse of equals: the effective count at `v`
   grows by exactly `0` or `w`, depending on the parity of the pooled count,
   and never shrinks.
   */
  lemma EqualCollapseError(out: seq<int>, b1: seq<int>, b2: seq<int>, w: nat, v: int)
    requires w > 0 && Picks(out, b1, w, b2, w)
    ensures Scale(w + w, CountLE(out, v))
         == Scale(w, CountLE(b1, v)) + Scale(w, CountLE(b2, v))
            + (if (CountLE(b1, v) + CountLE(b2, v)) % 2 == 0 then 0 else w)
  {
    var m := CountLE(out, v);
    EqualCollapseCount(out, b1, b2, w, v);
    ScaleDouble(w, m);
    ScaleAdd(w, m, m);
    ScaleAdd(w, CountLE(b1, v), CountLE(b2, v));
  }
}
