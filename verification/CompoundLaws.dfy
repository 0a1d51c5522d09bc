/**
 What the aggregates, masked sums, histograms and columns of a compound program
 are, in terms of the cells alone.
 */
module CompoundLaws {
  import opened CompoundSpec

  // ----- sums

  /** `t` are the running totals of `v`. */
  ghost predicate Running(t: seq<int>, v: seq<int>) {
    |t| == |v| + 1 && t[0] == 0 && forall i :: 0 <= i < |v| ==> t[i+1] == t[i] + v[i]
  }

  ghost predicate SumIs(v: seq<int>, x: int) {
    exists t :: Running(t, v) && t[|v|] == x
  }

  lemma SumNone()
    ensures SumIs([], 0)
  {
    assert Running([0], []);
  }

  lemma SumMore(v: seq<int>, x: int, y: int)
    requires SumIs(v, x)
    ensures SumIs(v + [y], x + y)
  {
    var t :| Running(t, v) && t[|v|] == x;
    assert Running(t + [x + y], v + [y]);
  }

  // ----- aggregates

  /** The values of the non-null cells, and zero for the others. */
  function NonNull(c: Column): (v: seq<int>)
    ensures |v| == |c| && forall i :: 0 <= i < |c| ==> v[i] == if c[i].nn then c[i].val else 0
  {
    seq(|c|, i requires 0 <= i < |c| => if c[i].nn then c[i].val else 0)
  }

  /**
   `p` reports the aggregate of `c`: the number of non-null cells, and the
   least of their values, the greatest, or the sum.
   */
  ghost predicate IsAggregate(agg: Agg, c: Column, p: Part) {
    && p.p1 == |set i | 0 <= i < |c| && c[i].nn| && p.p2 == 0
    && (p.isSet <==> exists i :: 0 <= i < |c| && c[i].nn)
    && match agg
       case Min => p.isSet ==> Attained(c, p.p0) && forall i :: 0 <= i < |c| && c[i].nn ==> p.p0 <= c[i].val
       case Max => p.isSet ==> Attained(c, p.p0) && forall i :: 0 <= i < |c| && c[i].nn ==> p.p0 >= c[i].val
       case Sum => SumIs(NonNull(c), p.p0)
  }

  ghost predicate Attained(c: Column, x: int) {
    exists i :: 0 <= i < |c| && c[i].nn && c[i].val == x
  }

  lemma {:induction false} AggregateIs(agg: Agg, c: Column)
    ensures IsAggregate(agg, c, Aggregate(agg, c))
  {
    if c == [] {
      SumNone();
      assert NonNull(c) == [];
    } else {
      var n := |c| - 1;
      AggregateIs(agg, c[..n]);
      OneMoreCell(agg, c[..n], c[n], c, Aggregate(agg, c[..n]));
    }
  }

  lemma OneMoreCell(agg: Agg, c: Column, x: Cell, now: Column, p: Part)
    requires now == c + [x] && IsAggregate(agg, c, p)
    ensures IsAggregate(agg, now, AddCell(agg, p, x))
  {
    OneMoreCount(c, x, now);
    OneMoreAttained(c, x, now, p.p0);
    if agg.Sum? { SumOfCells(c, x, now, p); }
  }

  lemma OneMoreCount(c: Column, x: Cell, now: Column)
    requires now == c + [x]
    ensures |set i | 0 <= i < |now| && now[i].nn| == |set i | 0 <= i < |c| && c[i].nn| + if x.nn then 1 else 0
    ensures (exists i :: 0 <= i < |now| && now[i].nn) <==> x.nn || exists i :: 0 <= i < |c| && c[i].nn
  {
    var n := |c|;
    assert forall i :: 0 <= i < n ==> now[i] == c[i];
    assert now[n] == x;
    assert (set i | 0 <= i < |now| && now[i].nn) == (set i | 0 <= i < n && c[i].nn) + if x.nn then {n} else {};
  }

  lemma OneMoreAttained(c: Column, x: Cell, now: Column, v: int)
    requires now == c + [x]
    ensures Attained(c, v) || (x.nn && x.val == v) <==> Attained(now, v)
    ensures x.nn ==> Attained(now, x.val)
  {
    assert forall i :: 0 <= i < |c| ==> now[i] == c[i];
    assert now[|c|] == x;
  }

  lemma SumOfCells(c: Column, x: Cell, now: Column, p: Part)
    requires now == c + [x] && IsAggregate(Sum, c, p)
    ensures SumIs(NonNull(now), AddCell(Sum, p, x).p0)
  {
    SumMore(NonNull(c), p.p0, if x.nn then x.val else 0);
    assert NonNull(now) == NonNull(c) + [if x.nn then x.val else 0];
    if !p.isSet { NothingToAdd(c, p.p0); }
  }

  /** Without a non-null cell the sum is 0. */
  lemma NothingToAdd(c: Column, x: int)
    requires SumIs(NonNull(c), x) && forall i :: 0 <= i < |c| ==> !c[i].nn
    ensures x == 0
  {
    var t :| Running(t, NonNull(c)) && t[|NonNull(c)|] == x;
    AllZero(t, NonNull(c), |c|);
  }

  lemma {:induction false} AllZero(t: seq<int>, v: seq<int>, n: nat)
    requires Running(t, v) && n <= |v| && forall i :: 0 <= i < |v| ==> v[i] == 0
    ensures t[n] == 0
  {
    if n > 0 { AllZero(t, v, n - 1); }
  }

  // ----- masked sums

  /** The values of `d` where `c` is not zero, and zero elsewhere. */
  function Picked(c: Column, d: Column): (v: seq<int>)
    requires |c| == |d|
    ensures |v| == |c| && forall i :: 0 <= i < |c| ==> v[i] == if c[i].val != 0 then d[i].val else 0
  {
    seq(|c|, i requires 0 <= i < |c| => if c[i].val != 0 then d[i].val else 0)
  }

  /** The sum of `d` over the rows where `c` is not zero, their number, and the number of all rows. */
  ghost predicate IsMaskedSum(c: Column, d: Column, p: Part)
    requires |c| == |d|
  {
    && SumIs(Picked(c, d), p.p0)
    && p.p1 == |set i | 0 <= i < |c| && c[i].val != 0| && p.p2 == |c|
  }

  lemma MaskedSumIs(c: Column, d: Column)
    requires |c| == |d|
    ensures IsMaskedSum(c, d, MaskedSum(c, d))
  {
    PickedSum(c, d, |c|);
    HitsAre(c, |c|);
    assert Picked(c, d)[..|c|] == Picked(c, d);
  }

  lemma {:induction false} PickedSum(c: Column, d: Column, n: nat)
    requires n <= |c| == |d|
    ensures SumIs(Picked(c, d)[..n], SumWhere(c, d, 0, n))
  {
    var v := Picked(c, d);
    if n == 0 {
      SumNone();
      assert v[..0] == [];
    } else {
      PickedSum(c, d, n - 1);
      SumMore(v[..n-1], SumWhere(c, d, 0, n - 1), v[n-1]);
      assert v[..n] == v[..n-1] + [v[n-1]];
    }
  }

  lemma {:induction false} HitsAre(c: Column, n: nat)
    requires n <= |c|
    ensures Hits(c, 0, n) == |set i | 0 <= i < n && c[i].val != 0|
  {
    if n > 0 {
      var m := n - 1;
      HitsAre(c, m);
      assert (set i | 0 <= i < n && c[i].val != 0)
          == (set i | 0 <= i < m && c[i].val != 0) + if c[m].val != 0 then {m} else {};
    }
  }

  // ----- histograms

  /** Row `i` is selected and has this key. */
  ghost predicate Falls(keys: Column, mask: Option<Column>, key: int, i: int)
    requires mask.Some? ==> |mask.value| == |keys|
  {
    0 <= i < |keys| && keys[i].val == key && (mask.Some? ==> mask.value[i].val != 0)
  }

  /** What every row adds to the entry `key`. */
  ghost function Shares(keys: Column, w: Column, mask: Option<Column>, key: int): (v: seq<int>)
    requires |w| == |keys| && (mask.Some? ==> |mask.value| == |keys|)
    ensures |v| == |keys| && forall i :: 0 <= i < |v| ==> v[i] == if Falls(keys, mask, key, i) then w[i].val else 0
  {
    seq(|keys|, i requires 0 <= i < |keys| => if Falls(keys, mask, key, i) then w[i].val else 0)
  }

  /** Entry `key`: the number of selected rows with that key, or the sum of their weights. */
  ghost predicate IsEntry(x: int, key: int, keys: Column, weights: Option<Column>, mask: Option<Column>)
    requires weights.Some? ==> |weights.value| == |keys|
    requires mask.Some? ==> |mask.value| == |keys|
  {
    match weights
    case None => x == |set i | 0 <= i < |keys| && Falls(keys, mask, key, i)|
    case Some(w) => SumIs(Shares(keys, w, mask, key), x)
  }

  ghost predicate IsCounted(h: seq<int>, keys: Column, weights: Option<Column>, mask: Option<Column>)
    requires weights.Some? ==> |weights.value| == |keys|
    requires mask.Some? ==> |mask.value| == |keys|
  {
    forall key :: 0 <= key < |h| ==> IsEntry(h[key], key, keys, weights, mask)
  }

  lemma {:induction false} HistogramIs(size: nat, keys: Column, weights: Option<Column>, mask: Option<Column>)
    requires weights.Some? ==> |weights.value| == |keys|
    requires mask.Some? ==> |mask.value| == |keys|
    ensures |Histogram(ZeroCounts(size), keys, weights, mask)| == size
    ensures IsCounted(Histogram(ZeroCounts(size), keys, weights, mask), keys, weights, mask)
    decreases |keys|
  {
    var h := Histogram(ZeroCounts(size), keys, weights, mask);
    if keys == [] {
      forall key | 0 <= key < |h| ensures IsEntry(h[key], key, keys, weights, mask) {
        SumNone();
        if weights.Some? { assert Shares(keys, weights.value, mask, key) == []; }
      }
    } else {
      var n := |keys| - 1;
      HistogramIs(size, keys[..n], Take(weights, n), Take(mask, n));
      var was := Histogram(ZeroCounts(size), keys[..n], Take(weights, n), Take(mask, n));
      forall key | 0 <= key < |h| ensures IsEntry(h[key], key, keys, weights, mask) {
        OneMoreRow(was, h, key, keys, weights, mask, n);
      }
    }
  }

  lemma OneMoreRow(was: seq<int>, h: seq<int>, key: int, keys: Column, weights: Option<Column>, mask: Option<Column>,
                   n: nat)
    requires weights.Some? ==> |weights.value| == |keys|
    requires mask.Some? ==> |mask.value| == |keys|
    requires n + 1 == |keys| && |h| == |was| && 0 <= key < |h|
    requires IsEntry(was[key], key, keys[..n], Take(weights, n), Take(mask, n))
    requires h == if mask.Some? && mask.value[n].val == 0 then was
                  else Bump(was, keys[n].val, if weights.Some? then weights.value[n].val else 1)
    ensures IsEntry(h[key], key, keys, weights, mask)
  {
    match weights {
      case None => OneMoreFalls(keys, mask, key, n);
      case Some(w) => OneMoreShare(was[key], key, keys, w, mask, n);
    }
  }

  lemma FallsBefore(keys: Column, mask: Option<Column>, key: int, n: nat, i: nat)
    requires (mask.Some? ==> |mask.value| == |keys|) && i < n <= |keys|
    ensures Falls(keys[..n], Take(mask, n), key, i) <==> Falls(keys, mask, key, i)
  {}

  lemma OneMoreFalls(keys: Column, mask: Option<Column>, key: int, n: nat)
    requires (mask.Some? ==> |mask.value| == |keys|) && n + 1 == |keys|
    ensures |set i | 0 <= i < |keys| && Falls(keys, mask, key, i)|
         == |set i | 0 <= i < |keys[..n]| && Falls(keys[..n], Take(mask, n), key, i)|
            + if Falls(keys, mask, key, n) then 1 else 0
  {
    forall i | 0 <= i < n ensures Falls(keys[..n], Take(mask, n), key, i) <==> Falls(keys, mask, key, i) {
      FallsBefore(keys, mask, key, n, i);
    }
    assert (set i | 0 <= i < |keys| && Falls(keys, mask, key, i))
        == (set i | 0 <= i < |keys[..n]| && Falls(keys[..n], Take(mask, n), key, i))
           + if Falls(keys, mask, key, n) then {n} else {};
  }

  lemma OneMoreShare(x: int, key: int, keys: Column, w: Column, mask: Option<Column>, n: nat)
    requires (mask.Some? ==> |mask.value| == |keys|) && n + 1 == |keys| == |w|
    requires SumIs(Shares(keys[..n], w[..n], Take(mask, n), key), x)
    ensures SumIs(Shares(keys, w, mask, key), x + if Falls(keys, mask, key, n) then w[n].val else 0)
  {
    var was, y := Shares(keys[..n], w[..n], Take(mask, n), key), if Falls(keys, mask, key, n) then w[n].val else 0;
    SumMore(was, x, y);
    forall i | 0 <= i < n ensures was[i] == Shares(keys, w, mask, key)[i] { FallsBefore(keys, mask, key, n, i); }
    assert Shares(keys, w, mask, key) == was + [y];
  }

  // ----- columns

  type Columns = map<string, Column>

  /** A column of that name, with an entry for every row. */
  predicate Has(cols: Columns, name: string, nR: nat) {
    name in cols && |cols[name]| == nR
  }

  /** From `a` only column `name` has changed. */
  predicate Sets(a: Columns, name: string, b: Columns, nR: nat) {
    Has(b, name, nR) && b == a[name := b[name]]
  }

  /** What one statement does to the columns: row by row, and only to its output. */
  ghost predicate Effect(k: Kernels, s: Stmt, nR: nat, a: Columns, b: Columns) {
    match s
    case F1OpF2(f1, spec, f2) =>
      Has(a, f1, nR) && Sets(a, f2, b, nR) && forall r :: 0 <= r < nR ==> b[f2][r] == k.unary(spec, a[f1][r])
    case F1S1OpF2(f1, sc, spec, f2) =>
      Has(a, f1, nR) && Sets(a, f2, b, nR) && forall r :: 0 <= r < nR ==> b[f2][r] == k.scalar(sc, spec, a[f1][r])
    case F1F2OpF3(f1, f2, spec, f3) =>
      && Has(a, f1, nR) && Has(a, f2, nR) && Sets(a, f3, b, nR)
      && forall r :: 0 <= r < nR ==> b[f3][r] == k.binary(spec, a[f1][r], a[f2][r])
    case _ => b == a
  }

  /** `e` are the columns before, between and after the statements of a program on `table`. */
  ghost predicate Means(k: Kernels, prog: seq<Stmt>, table: Columns, nR: nat, e: seq<Columns>) {
    && |e| == |prog| + 1 && e[0] == table
    && forall i {:trigger Effect(k, prog[i], nR, e[i], e[i+1])} ::
         0 <= i < |prog| ==> Effect(k, prog[i], nR, e[i], e[i+1])
  }

  /** The columns a statement reads. */
  function Inputs(s: Stmt): seq<string> {
    match s
    case F1OpF2(f1, _, _) => [f1]
    case F1S1OpF2(f1, _, _, _) => [f1]
    case F1F2OpF3(f1, f2, _, _) => [f1, f2]
    case FToS(f1, _, _) => [f1]
    case F1F2ToS(f1, f2, _) => [f1, f2]
    case Count(f1, cfld, _, _) => if cfld == "" then [f1] else [f1, cfld]
    case CountF(f1, f2, cfld, _, _) => if cfld == "" then [f1, f2] else [f1, f2, cfld]
  }

  /** One step of the whole-table run has that effect where its inputs are there. */
  lemma StepEffect(k: Kernels, s: Stmt, i: nat, e: Env, nR: nat, sizes: map<string, nat>)
    requires forall name :: name in Inputs(s) ==> Has(e.cols, name, nR)
    ensures Effect(k, s, nR, e.cols, StepWhole(k, s, i, e, nR, sizes).cols)
  {
    var now := StepWhole(k, s, i, e, nR, sizes);
    match s {
      case F1OpF2(f1, spec, f2) =>
        assert f1 in Inputs(s) && Col(e, f1, nR) == e.cols[f1];
      case F1S1OpF2(f1, sc, spec, f2) =>
        assert f1 in Inputs(s) && Col(e, f1, nR) == e.cols[f1];
      case F1F2OpF3(f1, f2, spec, f3) =>
        assert f1 in Inputs(s) && f2 in Inputs(s) && Col(e, f1, nR) == e.cols[f1] && Col(e, f2, nR) == e.cols[f2];
      case _ =>
    }
  }
}
