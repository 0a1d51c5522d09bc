/**
 Compound expressions (q-base/src/compound.c): the statements, and what a
 program of them means.  The meaning runs each statement over the whole table,
 one after the other, and finds columns by name.
 */
module CompoundSpec {

  /** A value with its null flag (the nn companion's entry). */
  datatype Cell = Cell(val: int, nn: bool)

  type Column = seq<Cell>

  datatype Agg = Min | Max | Sum

  datatype Stmt =
    | F1OpF2(f1: string, spec: string, f2: string)
    | F1S1OpF2(f1: string, scalar: string, spec: string, f2: string)
    | F1F2OpF3(f1: string, f2: string, spec: string, f3: string)
    | FToS(f1: string, agg: Agg, env: string)
    | F1F2ToS(f1: string, f2: string, env: string)
    | Count(f1: string, cfld: string, otbl: string, f3: string)
    | CountF(f1: string, f2: string, cfld: string, otbl: string, f4: string)

  /** The vec_* kernels, known only to work row by row. */
  datatype Kernels = Kernels(unary: (string, Cell) -> Cell, scalar: (string, string, Cell) -> Cell,
                             binary: (string, Cell, Cell) -> Cell)

  function MapUnary(k: Kernels, spec: string, c: Column): (r: Column)
    ensures |r| == |c|
  {
    seq(|c|, i requires 0 <= i < |c| => k.unary(spec, c[i]))
  }

  function MapScalar(k: Kernels, scalar: string, spec: string, c: Column): (r: Column)
    ensures |r| == |c|
  {
    seq(|c|, i requires 0 <= i < |c| => k.scalar(scalar, spec, c[i]))
  }

  function MapBinary(k: Kernels, spec: string, c: Column, d: Column): (r: Column)
    requires |c| == |d|
    ensures |r| == |c|
  {
    seq(|c|, i requires 0 <= i < |c| => k.binary(spec, c[i], d[i]))
  }

  // ----- scalars

  /** Numerator (valid when `isSet`), count, and third component of a scalar result. */
  datatype Part = Part(isSet: bool, p0: int, p1: int, p2: int)

  const EMPTY_PART := Part(false, 0, 0, 0)

  function Join(agg: Agg, x: int, y: int): int {
    match agg
    case Min => if x < y then x else y
    case Max => if x > y then x else y
    case Sum => x + y
  }

  function AddCell(agg: Agg, p: Part, c: Cell): Part {
    if !c.nn then p
    else Part(true, if p.isSet then Join(agg, p.p0, c.val) else c.val, p.p1 + 1, p.p2)
  }

  /** f_to_s over a column: the aggregate of the non-null cells and their number. */
  function Aggregate(agg: Agg, c: Column): Part {
    if c == [] then EMPTY_PART else AddCell(agg, Aggregate(agg, c[..|c|-1]), c[|c|-1])
  }

  /** f1f2_to_s: the sum and number of `d` where `c` is non-zero, and the number of rows. */
  function MaskedSum(c: Column, d: Column): Part
    requires |c| == |d|
  {
    Part(false, SumWhere(c, d, 0, |c|), Hits(c, 0, |c|), |c|)
  }

  /** The sum of `d` over the rows from `lo` to `hi` where `c` is non-zero. */
  function SumWhere(c: Column, d: Column, lo: nat, hi: nat): int
    requires hi <= |c| == |d|
  {
    if hi <= lo then 0 else SumWhere(c, d, lo, hi - 1) + if c[hi-1].val != 0 then d[hi-1].val else 0
  }

  /** How many these rows are. */
  function Hits(c: Column, lo: nat, hi: nat): int
    requires hi <= |c|
  {
    if hi <= lo then 0 else Hits(c, lo, hi - 1) + if c[hi-1].val != 0 then 1 else 0
  }

  // ----- histograms

  function Bump(h: seq<int>, key: int, w: int): (r: seq<int>)
    ensures |r| == |h|
  {
    if 0 <= key < |h| then h[key := h[key] + w] else h
  }

  /** Adds to `h` every row that the mask (if any) selects, weighted by `weights` (if any). */
  function Histogram(h: seq<int>, keys: Column, weights: Option<Column>, mask: Option<Column>): (r: seq<int>)
    requires weights.Some? ==> |weights.value| == |keys|
    requires mask.Some? ==> |mask.value| == |keys|
    ensures |r| == |h|
  {
    if keys == [] then h
    else
      var n := |keys| - 1;
      var r := Histogram(h, keys[..n], Take(weights, n), Take(mask, n));
      if mask.Some? && mask.value[n].val == 0 then r
      else Bump(r, keys[n].val, if weights.Some? then weights.value[n].val else 1)
  }

  datatype Option<T> = None | Some(value: T)

  function Take(c: Option<Column>, n: nat): Option<Column>
    requires c.Some? ==> n <= |c.value|
  {
    match c case None => None case Some(v) => Some(v[..n])
  }

  function Slice(c: Option<Column>, lo: nat, hi: nat): Option<Column>
    requires c.Some? ==> lo <= hi <= |c.value|
  {
    match c case None => None case Some(v) => Some(v[lo..hi])
  }

  function ZeroCounts(n: nat): seq<int> { seq(n, _ => 0) }

  // ----- programs

  /** Columns by name, histograms by table and name, scalars by statement. */
  datatype Env = Env(cols: map<string, Column>, hists: map<(string, string), seq<int>>, scalars: map<nat, Part>)

  function Col(e: Env, name: string, nR: nat): (c: Column)
    ensures |c| == nR
  {
    if name in e.cols && |e.cols[name]| == nR then e.cols[name] else seq(nR, _ => Cell(0, false))
  }

  function MaskCol(e: Env, name: string, nR: nat): (c: Option<Column>)
    ensures c.Some? ==> |c.value| == nR
  {
    if name == "" then None else Some(Col(e, name, nR))
  }

  /** One statement over the whole table. */
  function StepWhole(k: Kernels, s: Stmt, i: nat, e: Env, nR: nat, sizes: map<string, nat>): Env {
    match s
    case F1OpF2(f1, spec, f2) => e.(cols := e.cols[f2 := MapUnary(k, spec, Col(e, f1, nR))])
    case F1S1OpF2(f1, sc, spec, f2) => e.(cols := e.cols[f2 := MapScalar(k, sc, spec, Col(e, f1, nR))])
    case F1F2OpF3(f1, f2, spec, f3) => e.(cols := e.cols[f3 := MapBinary(k, spec, Col(e, f1, nR), Col(e, f2, nR))])
    case FToS(f1, agg, _) => e.(scalars := e.scalars[i := Aggregate(agg, Col(e, f1, nR))])
    case F1F2ToS(f1, f2, _) => e.(scalars := e.scalars[i := MaskedSum(Col(e, f1, nR), Col(e, f2, nR))])
    case Count(f1, cfld, otbl, f3) =>
      e.(hists := e.hists[(otbl, f3) :=
        Histogram(ZeroCounts(TableRows(sizes, otbl)), Col(e, f1, nR), None, MaskCol(e, cfld, nR))])
    case CountF(f1, f2, cfld, otbl, f4) =>
      e.(hists := e.hists[(otbl, f4) :=
        Histogram(ZeroCounts(TableRows(sizes, otbl)), Col(e, f2, nR), Some(Col(e, f1, nR)), MaskCol(e, cfld, nR))])
  }

  function TableRows(sizes: map<string, nat>, tbl: string): nat {
    if tbl in sizes then sizes[tbl] else 0
  }

  /** The first `n` statements, each over the whole table. */
  function RunWhole(k: Kernels, prog: seq<Stmt>, n: nat, table: map<string, Column>, nR: nat,
                    sizes: map<string, nat>): Env
    requires n <= |prog|
  {
    if n == 0 then Env(table, map[], map[])
    else StepWhole(k, prog[n-1], n - 1, RunWhole(k, prog, n - 1, table, nR, sizes), nR, sizes)
  }

  // ----- splitting a table into blocks

  lemma MapUnarySlice(k: Kernels, spec: string, c: Column, lo: nat, hi: nat)
    requires lo <= hi <= |c|
    ensures MapUnary(k, spec, c)[lo..hi] == MapUnary(k, spec, c[lo..hi])
  {}

  lemma MapScalarSlice(k: Kernels, sc: string, spec: string, c: Column, lo: nat, hi: nat)
    requires lo <= hi <= |c|
    ensures MapScalar(k, sc, spec, c)[lo..hi] == MapScalar(k, sc, spec, c[lo..hi])
  {}

  lemma MapBinarySlice(k: Kernels, spec: string, c: Column, d: Column, lo: nat, hi: nat)
    requires lo <= hi <= |c| == |d|
    ensures MapBinary(k, spec, c, d)[lo..hi] == MapBinary(k, spec, c[lo..hi], d[lo..hi])
  {}

  /** How the executor folds a block's scalar into the running one. */
  function CombineAgg(agg: Agg, p: Part, q: Part): Part {
    if q.p1 > 0 then Part(true, if p.isSet then Join(agg, p.p0, q.p0) else q.p0, p.p1 + q.p1, p.p2) else p
  }

  function CombineSum(p: Part, q: Part): Part {
    Part(p.isSet, p.p0 + q.p0, p.p1 + q.p1, p.p2 + q.p2)
  }

  lemma {:induction false} AggregateFacts(agg: Agg, c: Column)
    ensures Aggregate(agg, c).p1 >= 0 && Aggregate(agg, c).p2 == 0
    ensures Aggregate(agg, c).isSet <==> Aggregate(agg, c).p1 > 0
    ensures !Aggregate(agg, c).isSet ==> Aggregate(agg, c).p0 == 0
  {
    if c != [] { AggregateFacts(agg, c[..|c|-1]); }
  }

  lemma {:induction false} AggregateSplit(agg: Agg, c: Column, d: Column)
    ensures Aggregate(agg, c + d) == CombineAgg(agg, Aggregate(agg, c), Aggregate(agg, d))
  {
    AggregateFacts(agg, c);
    if d == [] {
      assert c + d == c;
    } else {
      var d' := d[..|d|-1];
      AggregateSplit(agg, c, d');
      AggregateFacts(agg, d');
      assert (c + d)[..|c + d| - 1] == c + d';
    }
  }

  lemma {:induction false} RowsSplit(c: Column, d: Column, lo: nat, mid: nat, hi: nat)
    requires lo <= mid <= hi <= |c| == |d|
    ensures SumWhere(c, d, lo, hi) == SumWhere(c, d, lo, mid) + SumWhere(c, d, mid, hi)
    ensures Hits(c, lo, hi) == Hits(c, lo, mid) + Hits(c, mid, hi)
    decreases hi
  {
    if mid < hi { RowsSplit(c, d, lo, mid, hi - 1); }
  }

  lemma {:induction false} RowsAt(c: Column, d: Column, cc: Column, dd: Column, off: nat, n: nat, hi: nat)
    requires n <= |c| == |d| && off + |c| <= |cc| == |dd| && c == cc[off..off+|c|] && d == dd[off..off+|c|]
    requires hi == off + n
    ensures SumWhere(c, d, 0, n) == SumWhere(cc, dd, off, hi) && Hits(c, 0, n) == Hits(cc, off, hi)
  {
    if n > 0 {
      var m, h := n - 1, hi - 1;
      RowsAt(c, d, cc, dd, off, m, h);
      assert c[m] == cc[h] && d[m] == dd[h];
    }
  }

  lemma ConcatParts(c: Column, c': Column, cc: Column)
    requires cc == c + c'
    ensures |cc| == |c| + |c'| && c == cc[0..|c|] && c' == cc[|c|..|cc|]
  {}

  lemma SumOfParts(c: Column, d: Column, c': Column, d': Column, cc: Column, dd: Column, n: nat, k: nat, m: nat)
    requires n == |c| == |d| && k == |c'| == |d'| && m == n + k == |cc| == |dd|
    requires c == cc[0..n] && c' == cc[n..m] && d == dd[0..n] && d' == dd[n..m]
    ensures MaskedSum(cc, dd) == CombineSum(MaskedSum(c, d), MaskedSum(c', d'))
  {
    RowsSplit(cc, dd, 0, n, m);
    RowsAt(c, d, cc, dd, 0, n, n);
    RowsAt(c', d', cc, dd, n, k, m);
  }

  lemma MaskedSumSplit(c: Column, d: Column, c': Column, d': Column, cc: Column, dd: Column)
    requires |c| == |d| && |c'| == |d'| && cc == c + c' && dd == d + d'
    ensures MaskedSum(cc, dd) == CombineSum(MaskedSum(c, d), MaskedSum(c', d'))
  {
    ConcatParts(c, c', cc);
    ConcatParts(d, d', dd);
    SumOfParts(c, d, c', d', cc, dd, |c|, |c'|, |cc|);
  }

  /** Counting a table block by block is counting it whole. */
  lemma {:induction false} HistogramSplit(h: seq<int>, keys: Column, weights: Option<Column>, mask: Option<Column>,
                                          lo: nat, hi: nat)
    requires lo <= hi <= |keys|
    requires weights.Some? ==> |weights.value| == |keys|
    requires mask.Some? ==> |mask.value| == |keys|
    ensures Histogram(h, keys[..hi], Take(weights, hi), Take(mask, hi))
         == Histogram(Histogram(h, keys[..lo], Take(weights, lo), Take(mask, lo)),
                      keys[lo..hi], Slice(weights, lo, hi), Slice(mask, lo, hi))
    decreases hi
  {
    if lo < hi {
      HistogramSplit(h, keys, weights, mask, lo, hi - 1);
      var n := hi - 1;
      assert keys[..hi][..n] == keys[..n] && keys[lo..hi][..n-lo] == keys[lo..n];
      TakeShorter(weights, lo, n, hi);
      TakeShorter(mask, lo, n, hi);
    } else {
      assert keys[lo..hi] == [];
    }
  }

  lemma TakeShorter(c: Option<Column>, lo: nat, n: nat, hi: nat)
    requires c.Some? ==> lo <= n <= hi <= |c.value|
    ensures c.Some? ==> Take(Take(c, hi), n) == Take(c, n)
    ensures c.Some? ==> Take(Slice(c, lo, hi), n - lo) == Slice(c, lo, n)
  {
    if c.Some? {
      assert c.value[..hi][..n] == c.value[..n];
      assert c.value[lo..hi][..n-lo] == c.value[lo..n];
    }
  }
}
