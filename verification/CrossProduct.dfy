/**
 Pairs of rows within batches (q-base/src/crossprod.c:136-224): the size
 formulas and the loops that emit the pairs.
 */
module CrossProduct {
  import opened Arithmetic

  datatype Mode = Complete | Upper | UpperStrict

  /** The first partner of row `j` in a batch that begins at `lb`. */
  function First(mode: Mode, lb: nat, j: nat): nat {
    match mode
    case Complete => lb
    case Upper => j
    case UpperStrict => j + 1
  }

  /** Should rows `j` and `k` be paired in the batch from `lb` to `ub`? */
  predicate Wanted(mode: Mode, lb: nat, ub: nat, j: int, k: int) {
    && lb <= j < ub && lb <= k < ub
    && match mode
       case Complete => true
       case Upper => j <= k
       case UpperStrict => j < k
  }

  predicate Before(p: (int, int), q: (int, int)) {
    p.0 < q.0 || (p.0 == q.0 && p.1 < q.1)
  }

  ghost predicate Lexicographic(s: seq<(int, int)>) {
    forall i, j :: 0 <= i < j < |s| ==> Before(s[i], s[j])
  }

  // ----- one batch

  /** Row `j` with the partners from `a` to `b`. */
  function RowPairs(j: nat, a: nat, b: nat): seq<(int, int)> {
    if b <= a then [] else seq(b - a, i requires 0 <= i < b - a => (j as int, a + i))
  }

  /** The pairs of the batch's rows below `j`. */
  function BatchPairs(mode: Mode, lb: nat, ub: nat, j: nat): seq<(int, int)> {
    if j <= lb then [] else BatchPairs(mode, lb, ub, j - 1) + RowPairs(j - 1, First(mode, lb, j - 1), ub)
  }

  lemma RowMember(mode: Mode, lb: nat, ub: nat, j: nat, p: (int, int))
    requires lb <= j < ub
    ensures p in RowPairs(j, First(mode, lb, j), ub) <==> p.0 == j && Wanted(mode, lb, ub, p.0, p.1)
  {
    var a := First(mode, lb, j);
    var s := RowPairs(j, a, ub);
    if p.0 == j && Wanted(mode, lb, ub, p.0, p.1) {
      assert s[p.1 - a] == p;
    }
  }

  /** The batch emits the wanted pairs. */
  lemma {:induction false} BatchMember(mode: Mode, lb: nat, ub: nat, j: nat, p: (int, int))
    requires lb <= j <= ub
    ensures p in BatchPairs(mode, lb, ub, j) <==> p.0 < j && Wanted(mode, lb, ub, p.0, p.1)
  {
    if j > lb {
      BatchMember(mode, lb, ub, j - 1, p);
      RowMember(mode, lb, ub, j - 1, p);
    }
  }

  lemma AppendLexicographic(s: seq<(int, int)>, t: seq<(int, int)>, j: int)
    requires Lexicographic(s) && Lexicographic(t)
    requires (forall p :: p in s ==> p.0 < j) && (forall p :: p in t ==> p.0 >= j)
    ensures Lexicographic(s + t)
  {
    forall a, b | 0 <= a < b < |s + t| ensures Before((s + t)[a], (s + t)[b]) {
      if a < |s| <= b { assert s[a] in s && t[b - |s|] in t; }
    }
  }

  /** In lexicographic order, so each pair once. */
  lemma {:induction false} BatchOrder(mode: Mode, lb: nat, ub: nat, j: nat)
    requires lb <= j <= ub
    ensures Lexicographic(BatchPairs(mode, lb, ub, j))
  {
    if j > lb {
      var i: nat := j - 1;
      BatchOrder(mode, lb, ub, i);
      forall p | p in BatchPairs(mode, lb, ub, i) ensures p.0 < i { BatchMember(mode, lb, ub, i, p); }
      AppendLexicographic(BatchPairs(mode, lb, ub, i), RowPairs(i, First(mode, lb, i), ub), i);
    }
  }

  /** The size formulas of crossprod.c:143-148. */
  function Size(mode: Mode, sz: nat): nat {
    match mode
    case Complete => sz * sz
    case Upper => sz * (sz + 1) / 2
    case UpperStrict => (if sz > 0 then (sz - 1) * sz else 0) / 2
  }

  /** Twice the number of pairs of the first `d` rows of a batch of `sz`. */
  function Twice(mode: Mode, sz: int, d: int): int {
    match mode
    case Complete => 2 * (d * sz)
    case Upper => d * (2 * sz - d + 1)
    case UpperStrict => d * (2 * sz - d - 1)
  }

  lemma TwiceStep(mode: Mode, sz: nat, d: nat)
    requires d < sz
    ensures Twice(mode, sz, d + 1) == Twice(mode, sz, d) +
        match mode case Complete => 2 * sz case Upper => 2 * (sz - d) case UpperStrict => 2 * (sz - d - 1)
  {}

  lemma {:induction false} BatchLength(mode: Mode, lb: nat, ub: nat, j: nat)
    requires lb <= j <= ub
    ensures 2 * |BatchPairs(mode, lb, ub, j)| == Twice(mode, ub - lb, j - lb)
  {
    if j > lb {
      BatchLength(mode, lb, ub, j - 1);
      TwiceStep(mode, ub - lb, j - 1 - lb);
    }
  }

  /** The emitted number of pairs is the closed form. */
  lemma BatchSize(mode: Mode, lb: nat, ub: nat)
    requires lb <= ub
    ensures |BatchPairs(mode, lb, ub, ub)| == Size(mode, ub - lb)
  {
    BatchLength(mode, lb, ub, ub);
    var sz := ub - lb;
    assert Twice(Upper, sz, sz) == sz * (sz + 1) && Twice(UpperStrict, sz, sz) == (sz - 1) * sz;
  }

  // ----- all batches

  function Sum(sizes: seq<nat>): nat {
    if sizes == [] then 0 else Sum(sizes[..|sizes|-1]) + sizes[|sizes|-1]
  }

  function SizeOfAll(mode: Mode, sizes: seq<nat>): nat {
    if sizes == [] then 0 else SizeOfAll(mode, sizes[..|sizes|-1]) + Size(mode, sizes[|sizes|-1])
  }

  function AllPairs(mode: Mode, sizes: seq<nat>): seq<(int, int)> {
    if sizes == [] then []
    else
      var rest := sizes[..|sizes|-1];
      AllPairs(mode, rest) + BatchPairs(mode, Sum(rest), Sum(sizes), Sum(sizes))
  }

  lemma {:induction false} AllSize(mode: Mode, sizes: seq<nat>)
    ensures |AllPairs(mode, sizes)| == SizeOfAll(mode, sizes)
  {
    if sizes != [] {
      var rest := sizes[..|sizes|-1];
      AllSize(mode, rest);
      BatchSize(mode, Sum(rest), Sum(sizes));
    }
  }

  /** There are at most as many pairs as the square of the number of rows. */
  lemma {:induction false} WithinSquare(mode: Mode, sizes: seq<nat>)
    ensures SizeOfAll(mode, sizes) <= Sum(sizes) * Sum(sizes)
  {
    if sizes != [] {
      var a, b := Sum(sizes[..|sizes|-1]), sizes[|sizes|-1];
      WithinSquare(mode, sizes[..|sizes|-1]);
      SizeWithin(mode, b);
      SquareOfSum(a, b);
    }
  }

  lemma SquareOfSum(a: nat, b: nat)
    ensures a * a + b * b <= (a + b) * (a + b)
  {
    assert (a + b) * (a + b) == a * a + 2 * (a * b) + b * b;
    assert a * b >= 0;
  }

  lemma SizeWithin(mode: Mode, b: nat)
    ensures Size(mode, b) <= b * b
  {
    assert b * (b + 1) == b * b + b && b > 0 ==> (b - 1) * b == b * b - b;
    assert b <= b * b;
  }

  // ----- the sizes as the code computes them

  /** C's division of an int by two. */
  function Halved(x: int): int {
    if x >= 0 then x / 2 else -(-x / 2)
  }

  /** The size of one batch in int arithmetic (crossprod.c:144-146). */
  function IntSize(mode: Mode, sz: nat): int {
    match mode
    case Complete => Int32(sz * sz)
    case Upper => Halved(Int32(sz * (sz + 1)))
    case UpperStrict => Halved(Int32(if sz > 0 then (sz - 1) * sz else 0))
  }

  /** The greatest batch whose product fits an int. */
  function Limit(mode: Mode): nat {
    match mode
    case Complete => 46340
    case Upper => 46340
    case UpperStrict => 46341
  }

  lemma ProductOrder(a: nat, b: nat, c: nat, d: nat)
    requires a <= c && b <= d
    ensures a * b <= c * d
  {
    MulMonotone(a, b, d);
    MulMonotone(d, a, c);
  }

  /** The int product is exact up to the limit, and too small beyond it. */
  lemma IntSizeExact(mode: Mode, sz: nat)
    ensures IntSize(mode, sz) <= Size(mode, sz)
    ensures IntSize(mode, sz) == Size(mode, sz) <==> sz <= Limit(mode)
  {
    match mode {
      case Complete =>
        SquareFits(sz);
        Int32Facts(sz * sz);
      case Upper =>
        NextProductFits(sz);
        HalvedExact(sz * (sz + 1));
      case UpperStrict =>
        if sz > 0 {
          NextProductFits(sz - 1);
          HalvedExact((sz - 1) * sz);
        }
    }
  }

  lemma SquareFits(sz: nat)
    ensures sz * sz <= INT_MAX <==> sz <= 46340
  {
    if sz <= 46340 { ProductOrder(sz, sz, 46340, 46340); } else { ProductOrder(46341, 46341, sz, sz); }
  }

  lemma NextProductFits(sz: nat)
    ensures sz * (sz + 1) <= INT_MAX <==> sz <= 46340
  {
    if sz <= 46340 { ProductOrder(sz, sz + 1, 46340, 46341); } else { ProductOrder(46341, 46342, sz, sz + 1); }
  }

  lemma HalvedExact(x: nat)
    ensures Halved(Int32(x)) <= x / 2 && (Halved(Int32(x)) == x / 2 <==> x <= INT_MAX)
  {
    Int32Facts(x);
  }

  /** The number of pairs that the code allocates room for. */
  function IntSizeOfAll(mode: Mode, sizes: seq<nat>): int {
    if sizes == [] then 0 else IntSizeOfAll(mode, sizes[..|sizes|-1]) + IntSize(mode, sizes[|sizes|-1])
  }

  ghost predicate WithinLimit(mode: Mode, sizes: seq<nat>) {
    forall g :: 0 <= g < |sizes| ==> sizes[g] <= Limit(mode)
  }

  /** It is the number of pairs exactly when no batch is above the limit; otherwise it is less. */
  lemma {:induction false} IntSizesExact(mode: Mode, sizes: seq<nat>)
    ensures IntSizeOfAll(mode, sizes) <= SizeOfAll(mode, sizes)
    ensures IntSizeOfAll(mode, sizes) == SizeOfAll(mode, sizes) <==> WithinLimit(mode, sizes)
  {
    if sizes != [] {
      var n := |sizes| - 1;
      IntSizesExact(mode, sizes[..n]);
      IntSizeExact(mode, sizes[n]);
      if WithinLimit(mode, sizes[..n]) && sizes[n] <= Limit(mode) {
        forall g | 0 <= g < |sizes| ensures sizes[g] <= Limit(mode) {
          if g < n { assert sizes[..n][g] == sizes[g]; }
        }
      }
      if WithinLimit(mode, sizes) {
        forall g | 0 <= g < n ensures sizes[..n][g] <= Limit(mode) { assert sizes[g] <= Limit(mode); }
      }
    }
  }

  // ----- products of long longs

  /** The size computed without batches (crossprod.c:155-157). */
  function LongSize(mode: Mode, n: nat): int {
    match mode
    case Complete => Int64(n * n)
    case Upper => Halved(Int64(n * (n + 1)))
    case UpperStrict => Halved(Int64(if n > 0 then (n - 1) * n else 0))
  }

  /** The greatest number of rows whose square fits a long long. */
  const SQUARE_LIMIT := 3037000499

  function LongLimit(mode: Mode): nat {
    if mode == UpperStrict then SQUARE_LIMIT + 1 else SQUARE_LIMIT
  }

  lemma LongSquareFits(n: nat)
    ensures n * n <= LLONG_MAX <==> n <= SQUARE_LIMIT
    ensures n < 0x1_0000_0000 ==> n * n < 0x1_0000_0000_0000_0000
  {
    if n <= SQUARE_LIMIT {
      ProductOrder(n, n, 3037000499, 3037000499);
    } else {
      ProductOrder(3037000500, 3037000500, n, n);
    }
    if n < 0x1_0000_0000 { ProductOrder(n, n, 0xFFFF_FFFF, 0xFFFF_FFFF); }
  }

  lemma LongNextProductFits(n: nat)
    ensures n * (n + 1) <= LLONG_MAX <==> n <= SQUARE_LIMIT
  {
    if n <= SQUARE_LIMIT {
      ProductOrder(n, n + 1, 3037000499, 3037000500);
    } else {
      ProductOrder(3037000500, 3037000501, n, n + 1);
    }
  }

  lemma LongHalvedExact(x: nat)
    ensures Halved(Int64(x)) <= x / 2 && (Halved(Int64(x)) == x / 2 <==> x <= LLONG_MAX)
  {
    Int64Facts(x);
  }

  /** Without batches the size is the number of pairs exactly up to the limit, and less beyond it. */
  lemma LongSizeExact(mode: Mode, n: nat)
    ensures LongSize(mode, n) <= Size(mode, n)
    ensures LongSize(mode, n) == Size(mode, n) <==> n <= LongLimit(mode)
  {
    match mode {
      case Complete =>
        LongSquareFits(n);
        Int64Facts(n * n);
      case Upper =>
        LongNextProductFits(n);
        LongHalvedExact(n * (n + 1));
      case UpperStrict =>
        if n > 0 {
          LongNextProductFits(n - 1);
          LongHalvedExact((n - 1) * n);
        }
    }
  }

  /** The guard of crossprod.c:151 lets the batches through. */
  predicate Guarded(mode: Mode, sizes: seq<nat>, nR1: nat) {
    IntSizeOfAll(mode, sizes) <= Int64(nR1 * nR1)
  }

  /**
   Up to 3037000499 rows the guard lets everything through.  From there to
   2^32 rows its product is negative, and it stops all batches that are within
   the limit.
   */
  lemma GuardExactly(mode: Mode, sizes: seq<nat>)
    ensures Sum(sizes) <= SQUARE_LIMIT ==> Guarded(mode, sizes, Sum(sizes))
    ensures WithinLimit(mode, sizes) && Sum(sizes) < 0x1_0000_0000 ==>
              (Guarded(mode, sizes, Sum(sizes)) <==> Sum(sizes) <= SQUARE_LIMIT)
  {
    var n := Sum(sizes);
    WithinSquare(mode, sizes);
    IntSizesExact(mode, sizes);
    LongSquareFits(n);
    Int64Facts(n * n);
  }

  /** 3037000500 rows in batches of two are stopped. */
  lemma PairsStopped(mode: Mode) returns (sizes: seq<nat>)
    ensures GoodSizes(sizes, 3037000500) && WithinLimit(mode, sizes) && !Guarded(mode, sizes, 3037000500)
  {
    var n := 1518500250;
    sizes := seq(n, _ => 2);
    SumOfTwos(sizes);
    GuardExactly(mode, sizes);
  }

  lemma {:induction false} SumOfTwos(sizes: seq<nat>)
    requires forall g :: 0 <= g < |sizes| ==> sizes[g] == 2
    ensures Sum(sizes) == 2 * |sizes|
  {
    if sizes != [] { SumOfTwos(sizes[..|sizes|-1]); }
  }

  /** All pairs of 2^32 rows without batches: the computed size is zero. */
  lemma SquareVanishes()
    ensures LongSize(Complete, 0x1_0000_0000) == 0
  {}

  /** The bounds of batch `g`. */
  predicate InBatch(mode: Mode, sizes: seq<nat>, g: nat, p: (int, int))
    requires g < |sizes|
  {
    Wanted(mode, Sum(sizes[..g]), Sum(sizes[..g+1]), p.0, p.1)
  }

  /** Emitted is what some batch wants. */
  lemma {:induction false} AllMember(mode: Mode, sizes: seq<nat>, p: (int, int))
    ensures p in AllPairs(mode, sizes) <==> exists g :: 0 <= g < |sizes| && InBatch(mode, sizes, g, p)
  {
    if sizes != [] {
      var n := |sizes| - 1;
      var rest := sizes[..n];
      AllMember(mode, rest, p);
      BatchMember(mode, Sum(rest), Sum(sizes), Sum(sizes), p);
      assert sizes[..n+1] == sizes;
      forall g | 0 <= g < n ensures InBatch(mode, rest, g, p) <==> InBatch(mode, sizes, g, p) {
        assert rest[..g] == sizes[..g] && rest[..g+1] == sizes[..g+1];
      }
      assert InBatch(mode, sizes, n, p) <==> Wanted(mode, Sum(rest), Sum(sizes), p.0, p.1);
      if exists g :: 0 <= g < |rest| && InBatch(mode, rest, g, p) {
        var g :| 0 <= g < |rest| && InBatch(mode, rest, g, p);
        assert InBatch(mode, sizes, g, p);
      }
    }
  }

  lemma {:induction false} SumMonotone(sizes: seq<nat>, g: nat)
    requires g <= |sizes|
    ensures Sum(sizes[..g]) <= Sum(sizes)
    decreases |sizes|
  {
    if g < |sizes| {
      SumMonotone(sizes[..|sizes|-1], g);
      assert sizes[..|sizes|-1][..g] == sizes[..g];
    } else {
      assert sizes[..g] == sizes;
    }
  }

  /** Over all batches the pairs are in lexicographic order: no pair is emitted twice. */
  lemma {:induction false} AllOrder(mode: Mode, sizes: seq<nat>)
    ensures Lexicographic(AllPairs(mode, sizes))
    ensures forall p :: p in AllPairs(mode, sizes) ==> 0 <= p.0 < Sum(sizes) && 0 <= p.1 < Sum(sizes)
  {
    if sizes != [] {
      var rest := sizes[..|sizes|-1];
      var batch := BatchPairs(mode, Sum(rest), Sum(sizes), Sum(sizes));
      AllOrder(mode, rest);
      BatchOrder(mode, Sum(rest), Sum(sizes), Sum(sizes));
      forall p | p in batch
        ensures Sum(rest) <= p.0 < Sum(sizes) && 0 <= p.1 < Sum(sizes)
      {
        BatchMember(mode, Sum(rest), Sum(sizes), Sum(sizes), p);
      }
      AppendLexicographic(AllPairs(mode, rest), batch, Sum(rest));
    }
  }

  // ----- the loops

  /** The output arrays hold the values of the pairs so far. */
  ghost predicate Written(f1: seq<int>, f2: seq<int>, pairs: seq<(int, int)>, n: nat, out1: seq<int>, out2: seq<int>) {
    && n <= |pairs| && n <= |out1| && n <= |out2|
    && forall i :: 0 <= i < n ==>
        0 <= pairs[i].0 < |f1| && 0 <= pairs[i].1 < |f2| && out1[i] == f1[pairs[i].0] && out2[i] == f2[pairs[i].1]
  }

  /** Row `j` and its partners (crossprod.c:188-201); every write is inside the allocated space. */
  method EmitRow(f1: seq<int>, f2: seq<int>, j: nat, a: nat, b: nat, out1: array<int>, out2: array<int>, n0: nat,
                 ghost pairs: seq<(int, int)>) returns (n: nat)
    requires j < |f1| && b <= |f2| && out1 != out2 && out1.Length == |pairs| == out2.Length
    requires n0 + |RowPairs(j, a, b)| <= |pairs| && pairs[n0..n0 + |RowPairs(j, a, b)|] == RowPairs(j, a, b)
    requires Written(f1, f2, pairs, n0, out1[..], out2[..])
    modifies out1, out2
    ensures n == n0 + |RowPairs(j, a, b)| && Written(f1, f2, pairs, n, out1[..], out2[..])
  {
    n := n0;
    var x, k := f1[j], a;
    ghost var row := RowPairs(j, a, b);
    while k < b
      invariant a <= k && (k <= b || k == a) && n == n0 + (k - a) <= |pairs| && n <= n0 + |row|
      invariant Written(f1, f2, pairs, n, out1[..], out2[..])
    {
      assert pairs[n] == pairs[n0..n0 + |row|][k - a] == row[k - a] == (j, k);
      out1[n] := x;
      out2[n] := f2[k];
      n, k := n + 1, k + 1;
    }
  }

  lemma {:induction false} BatchPrefix(mode: Mode, lb: nat, ub: nat, j: nat, m: nat)
    requires j <= m
    ensures BatchPairs(mode, lb, ub, j) <= BatchPairs(mode, lb, ub, m)
    decreases m
  {
    if j < m { BatchPrefix(mode, lb, ub, j, m - 1); }
  }

  lemma {:induction false} AllPrefix(mode: Mode, sizes: seq<nat>, g: nat)
    requires g <= |sizes|
    ensures AllPairs(mode, sizes[..g]) <= AllPairs(mode, sizes)
    decreases |sizes|
  {
    if g < |sizes| {
      AllPrefix(mode, sizes[..|sizes|-1], g);
      assert sizes[..|sizes|-1][..g] == sizes[..g];
    } else {
      assert sizes[..g] == sizes;
    }
  }

  /** Where the row stands among all pairs. */
  lemma RowPlace(mode: Mode, lb: nat, ub: nat, j: nat, start: nat, next: nat, n: nat, head: seq<(int, int)>,
                 pairs: seq<(int, int)>)
    requires lb <= j < ub && next == j + 1 && head + BatchPairs(mode, lb, ub, ub) <= pairs
    requires start == First(mode, lb, j) && n == |head| + |BatchPairs(mode, lb, ub, j)|
    ensures var row := RowPairs(j, start, ub);
            && n + |row| <= |pairs| && pairs[n..n + |row|] == row
            && n + |row| == |head| + |BatchPairs(mode, lb, ub, next)|
  {
    var batch, row := BatchPairs(mode, lb, ub, j), RowPairs(j, start, ub);
    BatchPrefix(mode, lb, ub, next, ub);
    BatchNext(mode, lb, ub, j, next);
    InTheMiddle(head, batch, row, BatchPairs(mode, lb, ub, ub), pairs);
  }

  lemma BatchNext(mode: Mode, lb: nat, ub: nat, j: nat, next: nat)
    requires lb <= j && next == j + 1
    ensures BatchPairs(mode, lb, ub, next) == BatchPairs(mode, lb, ub, j) + RowPairs(j, First(mode, lb, j), ub)
  {}

  lemma InTheMiddle(head: seq<(int, int)>, batch: seq<(int, int)>, row: seq<(int, int)>, whole: seq<(int, int)>,
                    pairs: seq<(int, int)>)
    requires batch + row <= whole && head + whole <= pairs
    ensures var n0 := |head| + |batch|; n0 + |row| <= |pairs| && pairs[n0..n0 + |row|] == row
  {
    var n0 := |head| + |batch|;
    forall i | 0 <= i < |row| ensures pairs[n0 + i] == row[i] {
      assert (head + whole)[n0 + i] == whole[|batch| + i] == (batch + row)[|batch| + i] == row[i];
    }
  }

  /** One batch (crossprod.c:187-202). */
  method EmitBatch(mode: Mode, f1: seq<int>, f2: seq<int>, lb: nat, ub: nat, out1: array<int>, out2: array<int>,
                   n0: nat, ghost head: seq<(int, int)>, ghost pairs: seq<(int, int)>)
    returns (n: nat)
    requires lb <= ub <= |f1| && ub <= |f2| && out1 != out2 && out1.Length == |pairs| == out2.Length
    requires n0 == |head| && head + BatchPairs(mode, lb, ub, ub) <= pairs
    requires Written(f1, f2, pairs, n0, out1[..], out2[..])
    modifies out1, out2
    ensures n == n0 + |BatchPairs(mode, lb, ub, ub)| && Written(f1, f2, pairs, n, out1[..], out2[..])
  {
    n := n0;
    var j := lb;
    while j < ub
      invariant lb <= j <= ub && n == |head| + |BatchPairs(mode, lb, ub, j)|
      invariant Written(f1, f2, pairs, n, out1[..], out2[..])
    {
      var next := j + 1;
      var start;
      match mode {
        case Complete => start := lb;
        case Upper => start := j;
        case UpperStrict => start := j + 1;
      }
      RowPlace(mode, lb, ub, j, start, next, n, head, pairs);
      n := EmitRow(f1, f2, j, start, ub, out1, out2, n, pairs);
      j := next;
    }
  }

  lemma BatchPlace(mode: Mode, sizes: seq<nat>, g: nat, next: nat, lb: nat, ub: nat, head: seq<(int, int)>,
                   more: seq<(int, int)>, pairs: seq<(int, int)>)
    requires g < |sizes| && next == g + 1 && lb == Sum(sizes[..g]) && ub == lb + sizes[g]
    requires head == AllPairs(mode, sizes[..g]) && more == AllPairs(mode, sizes[..next])
    requires pairs == AllPairs(mode, sizes)
    ensures ub == Sum(sizes[..next]) <= Sum(sizes) && more == head + BatchPairs(mode, lb, ub, ub) <= pairs
  {
    assert sizes[..next][..g] == sizes[..g];
    AllPrefix(mode, sizes, next);
    SumMonotone(sizes, next);
  }

  /** Batch sizes that the checks accept. */
  ghost predicate GoodSizes(sizes: seq<int>, nR1: nat) {
    (forall g :: 0 <= g < |sizes| ==> sizes[g] > 1) && Sum(sizes) == nR1
  }

  /** One batch of 65537 rows, all pairs: accepted, room for 131073 pairs is made, and 4295098369 are written. */
  lemma WideBatch() returns (sizes: seq<nat>)
    ensures sizes == [65537] && GoodSizes(sizes, 65537)
    ensures IntSizeOfAll(Complete, sizes) == 131073 && |AllPairs(Complete, sizes)| == 4295098369
  {
    var n := 65537;
    sizes := WideSizes(n);
    AllSize(Complete, sizes);
    assert n * n == 4295098369;
  }

  lemma WideSizes(n: nat) returns (sizes: seq<nat>)
    ensures sizes == [n] && Sum(sizes) == n
    ensures IntSizeOfAll(Complete, sizes) == Int32(n * n) && SizeOfAll(Complete, sizes) == n * n
  {
    sizes := [n];
    assert sizes[..0] == [];
  }

  /** Sizes and their sum stay far below the end of a long long. */
  lemma {:induction false} SumsFit(mode: Mode, sizes: seq<nat>)
    requires forall g :: 0 <= g < |sizes| ==> sizes[g] <= INT_MAX
    ensures Sum(sizes) <= INT_MAX * |sizes|
    ensures -0x8000_0000 * |sizes| <= IntSizeOfAll(mode, sizes) <= INT_MAX * |sizes|
  {
    if sizes != [] {
      SumsFit(mode, sizes[..|sizes|-1]);
      IntSizeRange(mode, sizes[|sizes|-1]);
    }
  }

  lemma IntSizeRange(mode: Mode, sz: nat)
    ensures -0x8000_0000 <= IntSize(mode, sz) <= INT_MAX
  {}

  /** The sums of the loop never wrap around. */
  lemma OneMoreSize(mode: Mode, sizes: seq<nat>, i: nat)
    requires i + 1 == |sizes| <= INT_MAX && forall g :: 0 <= g < |sizes| ==> sizes[g] <= INT_MAX
    ensures Int64(Sum(sizes[..i]) + sizes[i]) == Sum(sizes)
    ensures Int64(IntSizeOfAll(mode, sizes[..i]) + IntSize(mode, sizes[i])) == IntSizeOfAll(mode, sizes)
  {
    SumsFit(mode, sizes);
    Int64Same(Sum(sizes));
    Int64Same(IntSizeOfAll(mode, sizes));
  }

  /** The size of one batch (crossprod.c:143-148). */
  method OneSize(mode: Mode, sz: nat) returns (size: int)
    requires sz > 1
    ensures size == IntSize(mode, sz)
  {
    match mode {
      case Complete => size := Int32(sz * sz);
      case Upper => size := Halved(Int32(sz * (sz + 1)));
      case UpperStrict => size := Halved(Int32((sz - 1) * sz));
    }
  }

  /** The checks and the size computation (crossprod.c:136-152); the loop counts batches with an int. */
  method TotalSize(mode: Mode, nR1: nat, sizes: seq<Int>) returns (status: int, nR2: int)
    requires |sizes| <= INT_MAX
    ensures status == if GoodSizes(sizes, nR1) && Guarded(mode, sizes, nR1) then 0 else -1
    ensures status == 0 ==> nR2 == IntSizeOfAll(mode, sizes)
  {
    status, nR2 := 0, 0;
    var sum, i := 0, 0;
    while i < |sizes|
      invariant 0 <= i <= |sizes| && forall g :: 0 <= g < i ==> sizes[g] > 1
      invariant sum == Sum(sizes[..i]) && nR2 == IntSizeOfAll(mode, sizes[..i])
    {
      if sizes[i] <= 1 { return -1, 0; }
      var next := i + 1;
      OneMoreSize(mode, sizes[..next], i);
      assert sizes[..next][..i] == sizes[..i];
      sum := Int64(sum + sizes[i]);
      var size := OneSize(mode, sizes[i]);
      nR2 := Int64(nR2 + size);
      i := next;
    }
    assert sizes[..i] == sizes;
    if sum != nR1 { return -1, 0; }
    status := if nR2 > Int64(nR1 * nR1) then -1 else 0;
  }

  /** Without batch sizes all rows are one batch. */
  function Batches(aux: bool, sizes: seq<int>, nR1: nat): seq<int> {
    if aux then sizes else [nR1]
  }

  /** The number of pairs that the code makes room for. */
  function Allocated(mode: Mode, aux: bool, sizes: seq<nat>, nR1: nat): int {
    if aux then IntSizeOfAll(mode, sizes) else LongSize(mode, nR1)
  }

  /** The checks before the arrays are made. */
  ghost predicate Admitted(mode: Mode, aux: bool, sizes: seq<int>, nR1: nat) {
    && nR1 > 1
    && (aux ==> GoodSizes(sizes, nR1) && Guarded(mode, sizes, nR1))
    && Allocated(mode, aux, Batches(aux, sizes, nR1), nR1) > 0
  }

  /**
   The pairs of rows of the same batch, in the order of rows and each once; of
   the upper triangle those that do not, or strictly, descend.
   */
  ghost predicate IsWanted(mode: Mode, batches: seq<int>, pairs: seq<(int, int)>) {
    && (forall i, j :: 0 <= i < j < |pairs| ==>
          pairs[i].0 < pairs[j].0 || (pairs[i].0 == pairs[j].0 && pairs[i].1 < pairs[j].1))
    && (forall p :: p in pairs <==>
          SameBatch(batches, p) && (mode == Upper ==> p.0 <= p.1) && (mode == UpperStrict ==> p.0 < p.1))
  }

  /** Rows are numbered through all batches; both rows of `p` belong to one of them. */
  ghost predicate SameBatch(batches: seq<int>, p: (int, int)) {
    exists g, lb :: 0 <= g < |batches| && BatchStart(batches, g, lb)
      && lb <= p.0 < lb + batches[g] && lb <= p.1 < lb + batches[g]
  }

  /** `lb` rows stand before batch `g`. */
  ghost predicate BatchStart(batches: seq<int>, g: int, lb: int) {
    exists t: seq<int> :: RunningSum(batches, g, t) && t[g] == lb
  }

  ghost predicate RunningSum(batches: seq<int>, g: int, t: seq<int>) {
    |t| > g >= 0 && |batches| >= g && t[0] == 0 && forall i :: 0 <= i < g ==> t[i+1] == t[i] + batches[i]
  }

  lemma {:induction false} StartIsSum(batches: seq<nat>, g: nat, t: seq<int>)
    requires RunningSum(batches, g, t)
    ensures t[g] == Sum(batches[..g])
  {
    if g > 0 {
      StartIsSum(batches, g - 1, t);
      assert batches[..g][..g-1] == batches[..g-1];
    }
  }

  lemma SumIsStart(batches: seq<nat>, g: nat)
    requires g <= |batches|
    ensures BatchStart(batches, g, Sum(batches[..g]))
  {
    var t := seq(|batches| + 1, i requires 0 <= i <= |batches| => Sum(batches[..i]) as int);
    forall i | 0 <= i < g ensures t[i+1] == t[i] + batches[i] { assert batches[..i+1][..i] == batches[..i]; }
    assert RunningSum(batches, g, t);
  }

  lemma StartIs(batches: seq<nat>, g: nat, lb: int)
    requires g < |batches|
    ensures BatchStart(batches, g, lb) <==> lb == Sum(batches[..g])
    ensures Sum(batches[..g+1]) == Sum(batches[..g]) + batches[g]
  {
    SumIsStart(batches, g);
    assert batches[..g+1][..g] == batches[..g];
    if BatchStart(batches, g, lb) {
      var t: seq<int> :| RunningSum(batches, g, t) && t[g] == lb;
      StartIsSum(batches, g, t);
    }
  }

  lemma InBatchIs(mode: Mode, batches: seq<nat>, p: (int, int))
    ensures (exists g :: 0 <= g < |batches| && InBatch(mode, batches, g, p)) <==>
        SameBatch(batches, p) && (mode == Upper ==> p.0 <= p.1) && (mode == UpperStrict ==> p.0 < p.1)
  {
    if exists g :: 0 <= g < |batches| && InBatch(mode, batches, g, p) {
      var g :| 0 <= g < |batches| && InBatch(mode, batches, g, p);
      var lb: int := Sum(batches[..g]);
      StartIs(batches, g, lb);
      assert lb <= p.0 < lb + batches[g] && lb <= p.1 < lb + batches[g];
      assert SameBatch(batches, p);
    }
    if SameBatch(batches, p) && (mode == Upper ==> p.0 <= p.1) && (mode == UpperStrict ==> p.0 < p.1) {
      var g, lb :| 0 <= g < |batches| && BatchStart(batches, g, lb)
        && lb <= p.0 < lb + batches[g] && lb <= p.1 < lb + batches[g];
      StartIs(batches, g, lb);
      assert InBatch(mode, batches, g, p);
    }
  }

  lemma PairsAreWanted(mode: Mode, batches: seq<nat>)
    ensures IsWanted(mode, batches, AllPairs(mode, batches))
  {
    AllOrder(mode, batches);
    forall p
      ensures p in AllPairs(mode, batches) <==>
        SameBatch(batches, p) && (mode == Upper ==> p.0 <= p.1) && (mode == UpperStrict ==> p.0 < p.1)
    {
      AllMember(mode, batches, p);
      InBatchIs(mode, batches, p);
    }
  }

  /**
   crossprod.  `status` is -1 exactly when a check fails, unless there are
   more batches than an int counts.  Otherwise the run is `defined` exactly when
   rows can be numbered by ints and no batch is above the limit, and then the
   arrays list the values of all wanted pairs in order, no write is out of
   bounds and the count is the computed one.  With a batch above the limit the
   arrays are too short (`IntSizesExact`).
   */
  method CrossProd(mode: Mode, f1: seq<int>, f2: seq<int>, aux: bool, sizes: seq<Int>)
    returns (status: int, defined: bool, out1: array<int>, out2: array<int>, ghost pairs: seq<(int, int)>)
    requires |f1| == |f2|
    ensures (aux ==> |sizes| <= INT_MAX) ==> status == if Admitted(mode, aux, sizes, |f1|) then 0 else -1
    ensures status == 0 ==>
              (defined <==> |f1| <= INT_MAX && (aux ==> |sizes| <= INT_MAX && WithinLimit(mode, sizes)))
    ensures status == 0 && defined ==>
              && out1.Length == out2.Length == |pairs| == Allocated(mode, aux, Batches(aux, sizes, |f1|), |f1|)
              && IsWanted(mode, if aux then sizes else [|f1|], pairs)
              && forall i :: 0 <= i < |pairs| ==>
                   && 0 <= pairs[i].0 < |f1| && out1[i] == f1[pairs[i].0]
                   && 0 <= pairs[i].1 < |f2| && out2[i] == f2[pairs[i].1]
  {
    status, defined, out1, out2, pairs := -1, false, new int[0], new int[0], [];
    if |f1| <= 1 { return; }
    if aux && |sizes| > INT_MAX {
      status := 0;
      return;
    }
    var nR2;
    status, nR2 := RoomFor(mode, |f1|, aux, sizes);
    if status < 0 { return; }
    var batches: seq<nat> := if aux then sizes else [|f1|];
    defined := |f1| <= INT_MAX && nR2 == SizeOfAll(mode, batches);
    if !defined { return; }
    out1, out2 := new int[nR2], new int[nR2];
    pairs := AllPairs(mode, batches);
    PairsAreWanted(mode, batches);
    AllSize(mode, batches);
    var n := EmitAll(mode, f1, f2, batches, out1, out2);
    if nR2 != n { status := -1; }
  }

  /** How much room is made; where that is the number of pairs. */
  method RoomFor(mode: Mode, nR1: nat, aux: bool, sizes: seq<Int>) returns (status: int, nR2: int)
    requires nR1 > 1 && (aux ==> |sizes| <= INT_MAX)
    ensures status == if Admitted(mode, aux, sizes, nR1) then 0 else -1
    ensures status == 0 ==>
              var batches := Batches(aux, sizes, nR1);
              nR2 == Allocated(mode, aux, batches, nR1) > 0 && Sum(batches) == nR1
    ensures status == 0 && nR1 <= INT_MAX ==>
              (nR2 == SizeOfAll(mode, Batches(aux, sizes, nR1)) <==> aux ==> WithinLimit(mode, sizes))
  {
    if aux {
      status, nR2 := TotalSize(mode, nR1, sizes);
      if status < 0 { return; }
      IntSizesExact(mode, sizes);
    } else {
      status := 0;
      match mode {
        case Complete => nR2 := Int64(nR1 * nR1);
        case Upper => nR2 := Halved(Int64(nR1 * (nR1 + 1)));
        case UpperStrict => nR2 := Halved(Int64((nR1 - 1) * nR1));
      }
      LongSizeExact(mode, nR1);
      OneBatch(mode, nR1);
    }
    if nR2 <= 0 { status := -1; }
  }

  lemma OneBatch(mode: Mode, n: nat)
    ensures Sum([n]) == n && SizeOfAll(mode, [n]) == Size(mode, n)
  {
    var batches := [n];
    assert batches[..0] == [];
  }

  /** The loop over the batches (crossprod.c:184-204). */
  method EmitAll(mode: Mode, f1: seq<int>, f2: seq<int>, sizes: seq<nat>, out1: array<int>,
                 out2: array<int>) returns (n: nat)
    requires Sum(sizes) == |f1| == |f2| && out1 != out2 && out1.Length == SizeOfAll(mode, sizes) == out2.Length
    modifies out1, out2
    ensures n == out1.Length == |AllPairs(mode, sizes)| && Written(f1, f2, AllPairs(mode, sizes), n, out1[..], out2[..])
  {
    AllSize(mode, sizes);
    ghost var pairs := AllPairs(mode, sizes);
    n := 0;
    var lb, g := 0, 0;
    while g < |sizes|
      invariant 0 <= g <= |sizes| && lb == Sum(sizes[..g]) && n == |AllPairs(mode, sizes[..g])|
      invariant Written(f1, f2, pairs, n, out1[..], out2[..])
    {
      var next := g + 1;
      lb, n := EmitNext(mode, f1, f2, sizes, g, next, lb, out1, out2, n, AllPairs(mode, sizes[..g]),
          AllPairs(mode, sizes[..next]), pairs);
      g := next;
    }
    assert sizes[..g] == sizes;
  }

  /** Batch `g`, which begins at `lb`; the next begins at `ub`. */
  method EmitNext(mode: Mode, f1: seq<int>, f2: seq<int>, sizes: seq<nat>, g: nat, next: nat, lb: nat,
                  out1: array<int>, out2: array<int>, n0: nat,
                  ghost head: seq<(int, int)>, ghost more: seq<(int, int)>, ghost pairs: seq<(int, int)>)
    returns (ub: nat, n: nat)
    requires g < |sizes| && next == g + 1 && lb == Sum(sizes[..g]) && n0 == |head|
    requires head == AllPairs(mode, sizes[..g]) && more == AllPairs(mode, sizes[..next])
    requires pairs == AllPairs(mode, sizes)
    requires Sum(sizes) == |f1| == |f2| && out1 != out2 && out1.Length == |pairs| == out2.Length
    requires Written(f1, f2, pairs, n0, out1[..], out2[..])
    modifies out1, out2
    ensures ub == Sum(sizes[..next]) && n == |more| && Written(f1, f2, pairs, n, out1[..], out2[..])
  {
    ub := lb + sizes[g];
    BatchPlace(mode, sizes, g, next, lb, ub, head, more, pairs);
    n := EmitBatch(mode, f1, f2, lb, ub, out1, out2, n0, head, pairs);
  }
}
