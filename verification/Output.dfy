/**
 Output (q-base/src/Output.c): a pointer-per-buffer merge of all weighted
 buffers and the last packet answers every quantile query in one pass.
 */
module QuantileOutput {
  import opened Arithmetic
  import opened Ranks

  /** Buffers without a positive weight hold no effective elements. */
  function Effective(w: int): nat {
    if w > 0 then w else 0
  }

  /** The effective content of all buffers. */
  function PoolAll(bufs: seq<seq<int>>, ws: seq<int>): seq<int>
    requires |bufs| == |ws|
  {
    if bufs == [] then []
    else PoolAll(bufs[..|bufs|-1], ws[..|ws|-1]) + Expand(bufs[|bufs|-1], Effective(ws[|ws|-1]))
  }

  /** Effective elements at most `v` among the first `loc[i]` elements of every buffer `i`. */
  ghost function TakenLE(bufs: seq<seq<int>>, ws: seq<int>, loc: seq<nat>, v: int): nat
    requires Shape(bufs, ws, loc)
  {
    if bufs == [] then 0
    else
      var n := |bufs| - 1;
      TakenLE(bufs[..n], ws[..n], loc[..n], v) + CountLE(Expand(bufs[n][..loc[n]], Effective(ws[n])), v)
  }

  ghost predicate Shape(bufs: seq<seq<int>>, ws: seq<int>, loc: seq<nat>) {
    |bufs| == |ws| == |loc| && forall i :: 0 <= i < |bufs| ==> loc[i] <= |bufs[i]|
  }

  /** Elements not yet consumed; the merge consumes one per step. */
  ghost function Remaining(bufs: seq<seq<int>>, ws: seq<int>, loc: seq<nat>): nat
    requires Shape(bufs, ws, loc)
  {
    if bufs == [] then 0
    else
      var n := |bufs| - 1;
      Remaining(bufs[..n], ws[..n], loc[..n]) + |bufs[n]| - loc[n]
  }

  /** Buffer `i` still offers an element. */
  ghost predicate Open(bufs: seq<seq<int>>, ws: seq<int>, loc: seq<nat>, i: nat)
    requires Shape(bufs, ws, loc) && i < |bufs|
  {
    ws[i] > 0 && loc[i] < |bufs[i]|
  }

  lemma ExpandStep(s: seq<int>, i: nat, w: nat, v: int)
    requires i < |s|
    ensures CountLE(Expand(s[..i+1], w), v) == CountLE(Expand(s[..i], w), v) + CountLE(Repeat(s[i], w), v)
  {
    assert s[..i+1][..i] == s[..i];
    CountConcat(Expand(s[..i], w), Repeat(s[i], w), v);
  }

  lemma {:induction false} TakenStep(bufs: seq<seq<int>>, ws: seq<int>, loc: seq<nat>, m: nat, v: int)
    requires Shape(bufs, ws, loc) && m < |bufs| && loc[m] < |bufs[m]|
    ensures TakenLE(bufs, ws, loc[m := loc[m] + 1], v)
         == TakenLE(bufs, ws, loc, v) + CountLE(Repeat(bufs[m][loc[m]], Effective(ws[m])), v)
    ensures Remaining(bufs, ws, loc[m := loc[m] + 1]) == Remaining(bufs, ws, loc) - 1
  {
    var n := |bufs| - 1;
    var loc' := loc[m := loc[m] + 1];
    if m == n {
      assert loc'[..n] == loc[..n];
      ExpandStep(bufs[n], loc[n], Effective(ws[n]), v);
    } else {
      assert loc'[..n] == loc[..n][m := loc[..n][m] + 1];
      TakenStep(bufs[..n], ws[..n], loc[..n], m, v);
    }
  }

  /** A sorted sequence cut at a head of at least `limit` loses no element below `limit`. */
  lemma CutCount(s: seq<int>, i: nat, w: nat, limit: int, v: int)
    requires Sorted(s) && i <= |s| && v < limit
    requires i < |s| ==> s[i] >= limit
    ensures CountLE(Expand(s[..i], w), v) == CountLE(Expand(s, w), v)
  {
    assert s == s[..i] + s[i..];
    CountConcat(s[..i], s[i..], v);
    NoneCounted(s[i..], v);
    CountExpand(s[..i], w, v);
    CountExpand(s, w, v);
  }

  /** The same for a buffer that may be free. */
  lemma CutOne(s: seq<int>, i: nat, w: int, limit: int, v: int)
    requires i <= |s| && v < limit && (w > 0 ==> Sorted(s) && (i < |s| ==> s[i] >= limit))
    ensures CountLE(Expand(s[..i], Effective(w)), v) == CountLE(Expand(s, Effective(w)), v)
  {
    if w > 0 {
      CutCount(s, i, w, limit, v);
    } else {
      CountExpand(s, 0, v);
      CountExpand(s[..i], 0, v);
      ScaleZero(CountLE(s, v));
      ScaleZero(CountLE(s[..i], v));
    }
  }

  lemma OpenBelow(bufs: seq<seq<int>>, ws: seq<int>, loc: seq<nat>, limit: int, n: nat)
    requires Shape(bufs, ws, loc) && n <= |bufs|
    requires forall i :: 0 <= i < |bufs| && Open(bufs, ws, loc, i) ==> bufs[i][loc[i]] >= limit
    ensures forall i :: 0 <= i < n && Open(bufs[..n], ws[..n], loc[..n], i) ==> bufs[..n][i][loc[..n][i]] >= limit
  {
    forall i | 0 <= i < n && Open(bufs[..n], ws[..n], loc[..n], i) ensures bufs[..n][i][loc[..n][i]] >= limit {
      assert Open(bufs, ws, loc, i);
    }
  }

  lemma {:induction false} TakenAll(bufs: seq<seq<int>>, ws: seq<int>, loc: seq<nat>, limit: int, v: int)
    requires Shape(bufs, ws, loc) && v < limit
    requires forall i :: 0 <= i < |bufs| && ws[i] > 0 ==> Sorted(bufs[i])
    requires forall i :: 0 <= i < |bufs| && Open(bufs, ws, loc, i) ==> bufs[i][loc[i]] >= limit
    ensures TakenLE(bufs, ws, loc, v) == CountLE(PoolAll(bufs, ws), v)
  {
    if bufs != [] {
      var n := |bufs| - 1;
      OpenBelow(bufs, ws, loc, limit, n);
      TakenAll(bufs[..n], ws[..n], loc[..n], limit, v);
      CountConcat(PoolAll(bufs[..n], ws[..n]), Expand(bufs[n], Effective(ws[n])), v);
      assert ws[n] > 0 && loc[n] < |bufs[n]| ==> Open(bufs, ws, loc, n);
      CutOne(bufs[n], loc[n], ws[n], limit, v);
    }
  }

  lemma {:induction false} ScaleZero(n: nat)
    ensures Scale(0, n) == 0
  {
    if n > 0 { ScaleZero(n - 1); }
  }

  lemma {:induction false} TakenNone(bufs: seq<seq<int>>, ws: seq<int>, loc: seq<nat>, v: int)
    requires Shape(bufs, ws, loc) && forall i :: 0 <= i < |loc| ==> loc[i] == 0
    ensures TakenLE(bufs, ws, loc, v) == 0
  {
    if bufs != [] {
      var n := |bufs| - 1;
      TakenNone(bufs[..n], ws[..n], loc[..n], v);
      assert bufs[n][..0] == [];
    }
  }

  // ----- the merge invariant, on values

  /** `x` is at most every element still on offer. */
  ghost predicate Below(x: int, bufs: seq<seq<int>>, ws: seq<int>, loc: seq<nat>, last: seq<int>, lp: nat)
    requires Shape(bufs, ws, loc) && lp <= |last|
  {
    && (forall i :: 0 <= i < |bufs| && Open(bufs, ws, loc, i) ==> x <= bufs[i][loc[i]])
    && (lp < |last| ==> x <= last[lp])
  }

  /** `e` is the sorted effective content consumed so far, and nothing left is smaller. */
  ghost predicate Consumed(e: seq<int>, bufs: seq<seq<int>>, ws: seq<int>, loc: seq<nat>, last: seq<int>, lp: nat)
    requires Shape(bufs, ws, loc) && lp <= |last|
  {
    && Sorted(e)
    && (forall n :: 0 <= n < |e| ==> e[n] < INT_MAX && Below(e[n], bufs, ws, loc, last, lp))
    && (forall v :: CountLE(e, v) == TakenLE(bufs, ws, loc, v) + CountLE(last[..lp], v))
  }

  ghost predicate AllSorted(bufs: seq<seq<int>>, ws: seq<int>)
    requires |bufs| == |ws|
  {
    forall i :: 0 <= i < |bufs| && ws[i] > 0 ==> Sorted(bufs[i])
  }

  /** Advancing in buffer `m` leaves everything on offer at least as large as before. */
  lemma BelowAdvance(x: int, bufs: seq<seq<int>>, ws: seq<int>, loc: seq<nat>, last: seq<int>, lp: nat, m: nat)
    requires Shape(bufs, ws, loc) && lp <= |last| && AllSorted(bufs, ws)
    requires m < |bufs| && Open(bufs, ws, loc, m) && Below(x, bufs, ws, loc, last, lp)
    ensures Below(x, bufs, ws, loc[m := loc[m] + 1], last, lp)
  {
    var loc' := loc[m := loc[m] + 1];
    forall i | 0 <= i < |bufs| && Open(bufs, ws, loc', i) ensures x <= bufs[i][loc'[i]] {
      assert Open(bufs, ws, loc, i);
      assert x <= bufs[i][loc[i]];
    }
  }

  lemma SortedExtend(e: seq<int>, x: int, w: nat)
    requires Sorted(e) && forall n :: 0 <= n < |e| ==> e[n] <= x
    ensures Sorted(e + Repeat(x, w))
  {}

  lemma BufferStep(e: seq<int>, bufs: seq<seq<int>>, ws: seq<int>, loc: seq<nat>, last: seq<int>, lp: nat, m: nat)
    requires Shape(bufs, ws, loc) && lp <= |last| && AllSorted(bufs, ws)
    requires Consumed(e, bufs, ws, loc, last, lp)
    requires m < |bufs| && Open(bufs, ws, loc, m)
    requires bufs[m][loc[m]] < INT_MAX && Below(bufs[m][loc[m]], bufs, ws, loc, last, lp)
    ensures Consumed(e + Repeat(bufs[m][loc[m]], ws[m]), bufs, ws, loc[m := loc[m] + 1], last, lp)
  {
    var x, w := bufs[m][loc[m]], ws[m];
    var loc', e' := loc[m := loc[m] + 1], e + Repeat(x, w);
    forall n | 0 <= n < |e| ensures e[n] <= x && Below(e[n], bufs, ws, loc', last, lp) {
      BelowAdvance(e[n], bufs, ws, loc, last, lp, m);
      assert Open(bufs, ws, loc, m);
    }
    BelowAdvance(x, bufs, ws, loc, last, lp, m);
    SortedExtend(e, x, w);
    forall v ensures CountLE(e', v) == TakenLE(bufs, ws, loc', v) + CountLE(last[..lp], v) {
      CountConcat(e, Repeat(x, w), v);
      TakenStep(bufs, ws, loc, m, v);
    }
    forall n | 0 <= n < |e'| ensures e'[n] < INT_MAX && Below(e'[n], bufs, ws, loc', last, lp) {
      assert e'[n] == if n < |e| then e[n] else x;
    }
  }

  lemma LastStep(e: seq<int>, bufs: seq<seq<int>>, ws: seq<int>, loc: seq<nat>, last: seq<int>, lp: nat)
    requires Shape(bufs, ws, loc) && lp < |last| && Sorted(last)
    requires Consumed(e, bufs, ws, loc, last, lp)
    requires last[lp] < INT_MAX && Below(last[lp], bufs, ws, loc, last, lp)
    ensures Consumed(e + Repeat(last[lp], 1), bufs, ws, loc, last, lp + 1)
  {
    var x := last[lp];
    var e' := e + Repeat(x, 1);
    SortedExtend(e, x, 1);
    assert last[..lp+1] == last[..lp] + [x];
    forall v ensures CountLE(e', v) == TakenLE(bufs, ws, loc, v) + CountLE(last[..lp+1], v) {
      assert Repeat(x, 1) == [x];
      CountAppend(e, x, v);
      CountAppend(last[..lp], x, v);
    }
    forall n | 0 <= n < |e'| ensures e'[n] < INT_MAX && Below(e'[n], bufs, ws, loc, last, lp + 1) {
      assert e'[n] == if n < |e| then e[n] else x;
    }
  }

  lemma AllTaken(bufs: seq<seq<int>>, ws: seq<int>, loc: seq<nat>, last: seq<int>, lp: nat, v: int)
    requires Shape(bufs, ws, loc) && lp <= |last| && AllSorted(bufs, ws) && Sorted(last)
    requires Below(INT_MAX, bufs, ws, loc, last, lp) && v < INT_MAX
    ensures TakenLE(bufs, ws, loc, v) + CountLE(last[..lp], v) == CountLE(PoolAll(bufs, ws) + last, v)
  {
    TakenAll(bufs, ws, loc, INT_MAX, v);
    CountConcat(PoolAll(bufs, ws), last, v);
    LastTaken(last, lp, v);
  }

  lemma LastTaken(last: seq<int>, lp: nat, v: int)
    requires lp <= |last| && Sorted(last) && (lp < |last| ==> v < last[lp])
    ensures CountLE(last[..lp], v) == CountLE(last, v)
  {
    assert last == last[..lp] + last[lp..];
    CountConcat(last[..lp], last[lp..], v);
    NoneCounted(last[lp..], v);
  }

  /** When only values of at least INT_MAX remain, `e` is the start of the sorted total content. */
  lemma MergeEnds(e: seq<int>, bufs: seq<seq<int>>, ws: seq<int>, loc: seq<nat>, last: seq<int>, lp: nat)
    requires Shape(bufs, ws, loc) && lp <= |last| && AllSorted(bufs, ws) && Sorted(last)
    requires Consumed(e, bufs, ws, loc, last, lp)
    requires Below(INT_MAX, bufs, ws, loc, last, lp)
    ensures |e| == CountLE(PoolAll(bufs, ws) + last, INT_MAX - 1) <= |Sort(PoolAll(bufs, ws) + last)|
    ensures e == Sort(PoolAll(bufs, ws) + last)[..|e|]
  {
    var total := PoolAll(bufs, ws) + last;
    forall v | v < INT_MAX ensures CountLE(e, v) == CountLE(total, v) {
      AllTaken(bufs, ws, loc, last, lp, v);
    }
    SortedPrefix(e, total, INT_MAX);
  }

  // ----- the method

  /** The inner search: the first open buffer (or `b`, the last packet) with the least head below INT_MAX. */
  method FindMin(src: seq<array<int>>, weight: array<int>, loc: array<nat>, last: seq<int>, lp: nat, k: nat,
                 ghost bufs: seq<seq<int>>)
    returns (minVal: int, minLoc: int)
    requires |src| == |bufs| == weight.Length == loc.Length && lp <= |last|
    requires forall i :: 0 <= i < |src| ==> src[i].Length == k && src[i][..] == bufs[i] && loc[i] <= k
    ensures -1 <= minLoc <= |src| && minVal <= INT_MAX
    ensures Below(minVal, bufs, weight[..], loc[..], last, lp)
    ensures minLoc < 0 ==> minVal == INT_MAX
    ensures 0 <= minLoc < |src| ==>
        Open(bufs, weight[..], loc[..], minLoc) && minVal == bufs[minLoc][loc[minLoc]] < INT_MAX
    ensures minLoc == |src| ==> lp < |last| && minVal == last[lp] < INT_MAX
  {
    minVal, minLoc := INT_MAX, -1;
    ghost var ws, ls := weight[..], loc[..];
    for ii := 0 to |src|
      invariant -1 <= minLoc < ii && minVal <= INT_MAX
      invariant minLoc < 0 ==> minVal == INT_MAX
      invariant 0 <= minLoc ==> Open(bufs, ws, ls, minLoc) && minVal == bufs[minLoc][ls[minLoc]] < INT_MAX
      invariant forall i :: 0 <= i < ii && Open(bufs, ws, ls, i) ==> minVal <= bufs[i][ls[i]]
    {
      if weight[ii] > 0 && loc[ii] < k {
        assert src[ii][loc[ii]] == src[ii][..][loc[ii]] == bufs[ii][ls[ii]];
        if src[ii][loc[ii]] < minVal {
          minVal, minLoc := src[ii][loc[ii]], ii;
        }
      }
    }
    if lp < |last| && last[lp] < minVal {
      minVal, minLoc := last[lp], |src|;
    }
  }

  /** Slots `0..n` hold the elements of `e` at their ranks. */
  ghost predicate Answered(y: seq<int>, e: seq<int>, rank: nat -> nat, n: nat)
    requires n <= |y|
  {
    forall j :: 0 <= j < n ==> 1 <= rank(j) <= |e| && y[j] == e[rank(j) - 1]
  }

  /** The quantile ranks never decrease and start at 1. */
  ghost predicate Ranking(rank: nat -> nat) {
    forall i, j | 0 <= i <= j :: 1 <= rank(i) <= rank(j)
  }

  /** The answering loop: every rank now reached takes the current value. */
  method Answer(x: int, rank: nat -> nat, numQuantiles: nat, jj0: nat, y: array<int>, current: nat,
                ghost e: seq<int>, ghost before: nat, ghost was: seq<int>)
    returns (jj: nat)
    requires numQuantiles <= y.Length && jj0 <= numQuantiles && Ranking(rank)
    requires current == |e| && before <= |e| && forall n :: before <= n < |e| ==> e[n] == x
    requires Answered(y[..], e, rank, jj0)
    requires jj0 < numQuantiles ==> before < rank(jj0)
    requires |was| == y.Length && y[jj0..] == was[jj0..]
    modifies y
    ensures jj0 <= jj <= numQuantiles
    ensures Answered(y[..], e, rank, jj)
    ensures jj < numQuantiles ==> current < rank(jj)
    ensures y[jj..] == was[jj..]
  {
    jj := jj0;
    while jj < numQuantiles && current >= rank(jj)
      invariant jj0 <= jj <= numQuantiles
      invariant Answered(y[..], e, rank, jj)
      invariant jj < numQuantiles ==> before < rank(jj)
      invariant y[jj..] == was[jj..]
    {
      ghost var now := y[..];
      assert 1 <= rank(jj) <= rank(jj + 1);
      y[jj] := x;
      assert forall j :: 0 <= j < jj ==> y[..][j] == now[j];
      assert y[jj+1..] == now[jj..][1..] && was[jj+1..] == was[jj..][1..];
      jj := jj + 1;
    }
  }

  lemma AnsweredLonger(y: seq<int>, e: seq<int>, x: int, w: nat, rank: nat -> nat, n: nat)
    requires n <= |y| && Answered(y, e, rank, n)
    ensures Answered(y, e + Repeat(x, w), rank, n)
  {}

  /** What `y` reports: the element at each rank that lies below INT_MAX's share, and its old content elsewhere. */
  ghost predicate Reports(y: seq<int>, was: seq<int>, total: seq<int>, rank: nat -> nat, n: nat)
    requires n <= |y| == |was|
  {
    && |Sort(total)| == |total|
    && (forall j :: 0 <= j < n ==>
         1 <= rank(j)
         && (rank(j) <= CountLE(total, INT_MAX - 1) ==> rank(j) <= |total| && y[j] == Sort(total)[rank(j) - 1])
         && (rank(j) > CountLE(total, INT_MAX - 1) ==> y[j] == was[j]))
    && y[n..] == was[n..]
  }

  lemma ReportsFromPrefix(y: seq<int>, was: seq<int>, total: seq<int>, e: seq<int>, rank: nat -> nat, n: nat, jj: nat)
    requires jj <= n <= |y| == |was| && Ranking(rank)
    requires |e| == CountLE(total, INT_MAX - 1) <= |Sort(total)| && e == Sort(total)[..|e|]
    requires Answered(y, e, rank, jj) && y[jj..] == was[jj..]
    requires jj < n ==> |e| < rank(jj)
    ensures Reports(y, was, total, rank, n)
  {
    SortFacts(total);
    assert y[n..] == y[jj..][n-jj..] && was[n..] == was[jj..][n-jj..];
    forall j | 0 <= j < n
      ensures 1 <= rank(j)
      ensures rank(j) <= |e| ==> y[j] == Sort(total)[rank(j) - 1]
      ensures rank(j) > |e| ==> y[j] == was[j]
    {
      assert 1 <= rank(j) <= rank(j);
      if jj <= j {
        assert rank(jj) <= rank(j);
        assert y[j] == y[jj..][j-jj] && was[j] == was[jj..][j-jj];
      }
    }
  }

  /** One step of the merge: the least head is consumed with its whole weight. */
  method Advance(weight: array<int>, loc: array<nat>, minVal: int, minLoc: nat, lp: nat, current: nat,
                 ghost e: seq<int>, ghost bufs: seq<seq<int>>, ghost ws: seq<int>, ghost lasts: seq<int>)
    returns (lp': nat, current': nat, ghost e': seq<int>, ghost w: nat)
    requires weight[..] == ws && Shape(bufs, ws, loc[..]) && lp <= |lasts| && current == |e|
    requires AllSorted(bufs, ws) && Sorted(lasts)
    requires Consumed(e, bufs, ws, loc[..], lasts, lp) && Below(minVal, bufs, ws, loc[..], lasts, lp)
    requires minVal < INT_MAX
    requires minLoc <= |bufs|
    requires minLoc < |bufs| ==> Open(bufs, ws, loc[..], minLoc) && minVal == bufs[minLoc][loc[minLoc]]
    requires minLoc == |bufs| ==> lp < |lasts| && minVal == lasts[lp]
    modifies loc
    ensures lp' <= |lasts| && current' == |e'| && e' == e + Repeat(minVal, w)
    ensures Shape(bufs, ws, loc[..]) && Consumed(e', bufs, ws, loc[..], lasts, lp')
    ensures Remaining(bufs, ws, loc[..]) + |lasts| - lp' == old(Remaining(bufs, ws, loc[..])) + |lasts| - lp - 1
  {
    ghost var locs := loc[..];
    if minLoc < weight.Length {
      BufferStep(e, bufs, ws, locs, lasts, lp, minLoc);
      TakenStep(bufs, ws, locs, minLoc, 0);
      w := ws[minLoc];
      lp', current' := lp, current + weight[minLoc];
      loc[minLoc] := loc[minLoc] + 1;
      assert loc[..] == locs[minLoc := locs[minLoc] + 1];
    } else {
      LastStep(e, bufs, ws, locs, lasts, lp);
      w := 1;
      lp', current' := lp + 1, current + 1;
    }
    e' := e + Repeat(minVal, w);
  }

  /** One turn of the merge loop: consume the least head, then answer every rank that is reached. */
  method Turn(weight: array<int>, loc: array<nat>, minVal: int, minLoc: nat, lp: nat, current: nat,
              rank: nat -> nat, numQuantiles: nat, jj0: nat, y: array<int>,
              ghost e: seq<int>, ghost bufs: seq<seq<int>>, ghost ws: seq<int>, ghost lasts: seq<int>,
              ghost was: seq<int>)
    returns (lp': nat, current': nat, jj: nat, ghost e': seq<int>)
    requires weight[..] == ws && Shape(bufs, ws, loc[..]) && lp <= |lasts| && current == |e|
    requires AllSorted(bufs, ws) && Sorted(lasts) && y != weight
    requires Consumed(e, bufs, ws, loc[..], lasts, lp) && Below(minVal, bufs, ws, loc[..], lasts, lp)
    requires minVal < INT_MAX && minLoc <= |bufs|
    requires minLoc < |bufs| ==> Open(bufs, ws, loc[..], minLoc) && minVal == bufs[minLoc][loc[minLoc]]
    requires minLoc == |bufs| ==> lp < |lasts| && minVal == lasts[lp]
    requires numQuantiles <= y.Length && jj0 <= numQuantiles && Ranking(rank) && |was| == y.Length
    requires Answered(y[..], e, rank, jj0) && y[jj0..] == was[jj0..] && (jj0 < numQuantiles ==> current < rank(jj0))
    modifies loc, y
    ensures lp' <= |lasts| && current' == |e'| && jj <= numQuantiles
    ensures Shape(bufs, ws, loc[..]) && Consumed(e', bufs, ws, loc[..], lasts, lp')
    ensures Remaining(bufs, ws, loc[..]) + |lasts| - lp' == old(Remaining(bufs, ws, loc[..])) + |lasts| - lp - 1
    ensures Answered(y[..], e', rank, jj) && y[jj..] == was[jj..] && (jj < numQuantiles ==> current' < rank(jj))
  {
    ghost var w;
    lp', current', e', w := Advance(weight, loc, minVal, minLoc, lp, current, e, bufs, ws, lasts);
    AnsweredLonger(y[..], e, minVal, w, rank, jj0);
    jj := Answer(minVal, rank, numQuantiles, jj0, y, current', e', |e|, was);
  }

  /** The merge loop of Output.c for any non-decreasing list of ranks. */
  method MergeAndAnswer(src: seq<array<int>>, weight: array<int>, last: seq<int>,
                        rank: nat -> nat, numQuantiles: nat, y: array<int>, k: nat, ghost bufs: seq<seq<int>>)
    requires |src| == |bufs| == weight.Length && numQuantiles <= y.Length
    requires forall i :: 0 <= i < |src| ==> src[i].Length == k && src[i][..] == bufs[i] && src[i] != y
    requires y != weight && Ranking(rank)
    requires AllSorted(bufs, weight[..]) && Sorted(last)
    modifies y
    ensures Reports(y[..], old(y[..]), PoolAll(bufs, weight[..]) + last, rank, numQuantiles)
  {
    var loc := new nat[|src|](_ => 0);
    var lp: nat, current: nat, jj: nat := 0, 0, 0;
    ghost var ws, was := weight[..], y[..];
    ghost var e: seq<int> := [];
    forall v ensures TakenLE(bufs, ws, loc[..], v) == 0 { TakenNone(bufs, ws, loc[..], v); }
    while true
      invariant lp <= |last| && jj <= numQuantiles && current == |e|
      invariant weight[..] == ws && Shape(bufs, ws, loc[..])
      invariant forall i :: 0 <= i < |src| ==> src[i][..] == bufs[i]
      invariant Consumed(e, bufs, ws, loc[..], last, lp)
      invariant Answered(y[..], e, rank, jj) && y[jj..] == was[jj..]
      invariant jj < numQuantiles ==> current < rank(jj)
      decreases Remaining(bufs, ws, loc[..]) + |last| - lp
    {
      var minVal, minLoc := FindMin(src, weight, loc, last, lp, k, bufs);
      if minLoc < 0 { break; }
      lp, current, jj, e := Turn(weight, loc, minVal, minLoc, lp, current, rank, numQuantiles, jj, y, e, bufs, ws, last,
          was);
    }
    MergeEnds(e, bufs, ws, loc[..], last, lp);
    ReportsFromPrefix(y[..], was, PoolAll(bufs, ws) + last, e, rank, numQuantiles, jj);
  }

  /** Rank of quantile `j`: the ceiling of (j+1)*siz/numQuantiles. */
  function QuantileRank(j: nat, siz: nat, numQuantiles: nat): nat
    requires numQuantiles > 0
  {
    ((j + 1) * siz + numQuantiles - 1) / numQuantiles
  }

  lemma QuantileRankOrder(i: nat, j: nat, siz: nat, n: nat)
    requires i <= j && siz > 0 && n > 0
    ensures 1 <= QuantileRank(i, siz, n) <= QuantileRank(j, siz, n)
  {
    assert (i + 1) * siz <= (j + 1) * siz by { assert (j + 1) * siz == (i + 1) * siz + (j - i) * siz; }
    assert (i + 1) * siz >= siz >= 1;
    DivOrder((i + 1) * siz + n - 1, (j + 1) * siz + n - 1, n);
  }

  lemma DivOrder(a: nat, c: nat, n: nat)
    requires n > 0 && n <= a <= c
    ensures 1 <= a / n <= c / n
  {
    var p, q := a / n, c / n;
    assert n * p <= a < n * p + n && n * q <= c < n * q + n;
    if p > q { MulMonotone(n, q + 1, p); }
    if p < 1 { MulMonotone(n, p, 0); }
  }

  /** The last quantile asks for the greatest element. */
  lemma LastQuantileRank(siz: nat, n: nat)
    requires siz > 0 && n > 0
    ensures QuantileRank(n - 1, siz, n) == siz
  {
    assert (n - 1 + 1) * siz + n - 1 == n * siz + (n - 1);
    DivExact(siz, n);
  }

  lemma DivExact(q: nat, n: nat)
    requires n > 0
    ensures (n * q + (n - 1)) / n == q
  {
    var d := (n * q + (n - 1)) / n;
    assert n * d <= n * q + (n - 1) < n * d + n;
    if d < q { MulMonotone(n, d + 1, q); }
    if d > q { MulMonotone(n, q + 1, d); }
    MulMonotone(n, q, q);
    MulMonotone(n, d, d);
  }

  /** The rank is the ceiling of the share: `n` times as many reach it, `n` times one less do not. */
  lemma RankIsCeiling(j: nat, siz: nat, n: nat)
    requires siz > 0 && n > 0
    ensures var q := QuantileRank(j, siz, n); n * (q - 1) < (j + 1) * siz <= n * q
  {
    var r, q := (j + 1) * siz, QuantileRank(j, siz, n);
    Division(r + n - 1, n);
    assert n * (q - 1) == n * q - n;
  }

  /** Comparing counts with a ceiling is comparing their multiples with the share. */
  lemma Ceiling(n: nat, r: int, q: int, a: int)
    requires n * (q - 1) < r <= n * q
    ensures n * a < r <==> a < q
  {
    if a < q { MulMonotone(n, a, q - 1); } else { MulMonotone(n, q, a); }
  }

  /**
   What `y` answers, without ranks: `n` times the number of elements below the
   answer falls short of the share (j+1)*siz, `n` times the number at or below
   it does not.  A slot whose share exceeds `n` times the number of elements
   below INT_MAX keeps its old content.
   */
  ghost predicate Answers(y: seq<int>, was: seq<int>, total: seq<int>, siz: nat, n: nat)
    requires n <= |y| == |was|
  {
    && y[n..] == was[n..]
    && (forall j :: 0 <= j < n ==> SlotAnswers(y[j], was[j], total, (j + 1) * siz, n))
  }

  ghost predicate SlotAnswers(y: int, was: int, total: seq<int>, r: int, n: nat) {
    if r <= n * CountLE(total, INT_MAX - 1) then n * CountLE(total, y - 1) < r <= n * CountLE(total, y) else y == was
  }

  lemma ReportsAnswers(y: seq<int>, was: seq<int>, total: seq<int>, siz: nat, n: nat)
    requires 0 < n <= |y| == |was| && siz > 0
    requires Reports(y, was, total, j => QuantileRank(j, siz, n), n)
    ensures Answers(y, was, total, siz, n)
  {
    forall j | 0 <= j < n ensures SlotAnswers(y[j], was[j], total, (j + 1) * siz, n) {
      RankIsCeiling(j, siz, n);
      RankAnswers(y[j], was[j], total, (j + 1) * siz, n, QuantileRank(j, siz, n));
    }
  }

  lemma RankAnswers(y: int, was: int, total: seq<int>, r: int, n: nat, q: nat)
    requires n * (q - 1) < r <= n * q && 1 <= q && |Sort(total)| == |total|
    requires q <= CountLE(total, INT_MAX - 1) ==> q <= |total| && y == Sort(total)[q - 1]
    requires q > CountLE(total, INT_MAX - 1) ==> y == was
    ensures SlotAnswers(y, was, total, r, n)
  {
    Ceiling(n, r, q, CountLE(total, INT_MAX - 1));
    if q <= CountLE(total, INT_MAX - 1) {
      RankCharacterised(total, q, y);
      Ceiling(n, r, q, CountLE(total, y - 1));
      Ceiling(n, r, q, CountLE(total, y));
    }
  }

  /** The answered slots come first and are in non-decreasing order. */
  lemma AnswersAscend(y: seq<int>, was: seq<int>, total: seq<int>, siz: nat, n: nat, i: nat, j: nat)
    requires i <= j < n <= |y| == |was| && Answers(y, was, total, siz, n)
    requires (j + 1) * siz <= n * CountLE(total, INT_MAX - 1)
    ensures (i + 1) * siz <= n * CountLE(total, INT_MAX - 1) && y[i] <= y[j]
  {
    MulMonotone(siz, i + 1, j + 1);
    assert SlotAnswers(y[i], was[i], total, (i + 1) * siz, n) && SlotAnswers(y[j], was[j], total, (j + 1) * siz, n);
    if y[i] > y[j] {
      CountMonotone(total, y[j], y[i] - 1);
      MulMonotone(n, CountLE(total, y[j]), CountLE(total, y[i] - 1));
    }
  }

  /** The last packet counts only when it is incomplete. */
  function LastContent(last: seq<int>, lastIncomplete: int, lastSiz: nat): seq<int>
    requires lastSiz <= |last|
  {
    if lastIncomplete == 1 then last[..lastSiz] else []
  }

  /** Output.c: answers all `numQuantiles` queries; refuses only a last packet longer than a buffer. */
  method Output(src: seq<array<int>>, weight: array<int>, last: seq<int>, lastIncomplete: int, lastSiz: nat,
                siz: nat, numQuantiles: nat, y: array<int>, k: nat, ghost bufs: seq<seq<int>>)
    returns (status: int)
    requires |src| == |bufs| == weight.Length && siz > 0 && 0 < numQuantiles <= y.Length
    requires lastSiz <= k ==> lastSiz <= |last|
    requires forall i :: 0 <= i < |src| ==> src[i].Length == k && src[i][..] == bufs[i] && src[i] != y
    requires y != weight
    requires AllSorted(bufs, weight[..]) && (lastIncomplete == 1 && lastSiz <= k ==> Sorted(last[..lastSiz]))
    modifies y
    ensures status == if lastSiz > k then -1 else 0
    ensures status != 0 ==> y[..] == old(y[..])
    ensures status == 0 ==>
      var used := if lastIncomplete == 1 then last[..lastSiz] else [];
      Answers(y[..], old(y[..]), PoolAll(bufs, weight[..]) + used, siz, numQuantiles)
  {
    if lastSiz > k { return -1; }
    var rank := (j: nat) => QuantileRank(j, siz, numQuantiles);
    forall i: nat, j: nat | 0 <= i <= j ensures 1 <= rank(i) <= rank(j) { QuantileRankOrder(i, j, siz, numQuantiles); }
    ghost var was, total := y[..], PoolAll(bufs, weight[..]) + LastContent(last, lastIncomplete, lastSiz);
    var used := if lastIncomplete == 1 then last[..lastSiz] else [];
    MergeAndAnswer(src, weight, used, rank, numQuantiles, y, k, bufs);
    ReportsAnswers(y[..], was, total, siz, numQuantiles);
    return 0;
  }
}
