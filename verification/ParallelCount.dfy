/**
 Work partitioning (q-base/src/dbauxil.c:249-285, 1096-1120) and counting with
 one partial histogram per thread (q-base/src/count.c:84-275).
 */
module ParallelCount {
  import opened Arithmetic
  import opened Masks
  import opened Ranks
  import opened Sums

  /** Where it ends; the last chunk is extended to the whole range. */
  function Hi(n: nat, block: nat, chunks: nat, t: nat): nat {
    if t + 1 == chunks then n else Scale(block, t) + block
  }

  ghost predicate InChunk(n: nat, block: nat, chunks: nat, t: nat, r: nat) {
    Scale(block, t) <= r < Hi(n, block, chunks, t)
  }

  /** Chunks are disjoint. */
  lemma ChunksDisjoint(n: nat, block: nat, chunks: nat, s: nat, t: nat, r: nat)
    requires s < t < chunks && InChunk(n, block, chunks, s, r)
    ensures !InChunk(n, block, chunks, t, r)
  {
    ScaleMonotone(block, s + 1, t);
  }

  /** And cover the range. */
  lemma {:induction false} ChunkFound(n: nat, block: nat, chunks: nat, r: nat, t: nat) returns (c: nat)
    requires t < chunks && Scale(block, t) <= n && r < (if t + 1 == chunks then n else Scale(block, t) + block)
    ensures c < chunks && InChunk(n, block, chunks, c, r)
  {
    if Scale(block, t) <= r { c := t; } else { c := ChunkFound(n, block, chunks, r, t - 1); }
  }

  lemma ChunksCover(n: nat, block: nat, chunks: nat, r: nat) returns (c: nat)
    requires chunks > 0 && chunks * block <= n && r < n
    ensures c < chunks && InChunk(n, block, chunks, c, r)
  {
    ScaleIsProduct(block, chunks - 1);
    assert (chunks - 1) * block + block == chunks * block;
    c := ChunkFound(n, block, chunks, r, chunks - 1);
  }

  // ----- partition

  /** The number of chunks as an int (dbauxil.c:265-271). */
  function Chunks(n: nat, minBlock: nat, maxChunks: int): (c: int)
    requires minBlock > 0
    ensures c != 0
  {
    var c := if Int32(n / minBlock) == 0 then 1 else Int32(n / minBlock);
    if 0 < maxChunks < c then maxChunks else c
  }

  lemma DivideBack(n: nat, c: nat)
    requires c > 0
    ensures c * (n / c) + n % c == n && c * (n / c) == (n / c) * c
  {}

  /** C's division, for a positive dividend. */
  function Quotient(n: nat, c: int): int
    requires c != 0
  {
    if c > 0 then n / c else -(n / -c)
  }

  /** One more block would still be within a long long; with INT_MAX chunks their number plus one is negative. */
  predicate RoomForNext(n: nat, c: nat)
    requires c > 0
  {
    if c < INT_MAX then (n / c) * (c + 1) <= LLONG_MAX else n == 0x7FFF_FFFF_7FFF_FFFF || n == 0x7FFF_FFFF_8000_0000
  }

  /** `n` rows can be divided into `c` chunks: what is left over is less than a block. */
  predicate Divides(n: nat, c: int) {
    c > 0 && n % c < n / c && RoomForNext(n, c)
  }

  /** partition: what it refuses, and what it returns. */
  method Partition(n: Long, minBlock: Long, maxChunks: Int) returns (status: int, block: int, chunks: int)
    ensures status == if n > 0 && minBlock > 0 && Divides(n, Chunks(n, minBlock, maxChunks)) then 0 else -1
    ensures status == 0 ==> chunks == Chunks(n, minBlock, maxChunks) && block == n / chunks && chunks * block <= n
    ensures status == 0 ==> AsManyAsFit(n, minBlock, maxChunks, chunks)
  {
    status, block, chunks := 0, 0, 0;
    if n <= 0 || minBlock <= 0 { return -1, 0, 0; }
    chunks := Int32(n / minBlock);
    if chunks == 0 { chunks := 1; }
    if maxChunks > 0 && chunks > maxChunks { chunks := maxChunks; }
    block := if chunks > 0 then n / chunks else -(n / -chunks);
    UsedUp(n, chunks);
    var used := block * chunks;
    if n - used >= block { return -1, 0, 0; }
    LastCheck(n, chunks);
    FitsAlways(n, minBlock, maxChunks);
    status := if Int64(block * Int32(chunks + 1)) < n then -1 else 0;
  }

  /** The last check (dbauxil.c:280) passes exactly when neither of its products wraps around, but for two numbers. */
  lemma LastCheck(n: nat, c: nat)
    requires 0 < n <= LLONG_MAX && 0 < c <= INT_MAX && n % c < n / c
    ensures Int64((n / c) * Int32(c + 1)) >= n <==> RoomForNext(n, c)
  {
    if c < INT_MAX {
      DivideBack(n, c);
      var p := (n / c) * (c + 1);
      assert p == n - n % c + n / c;
      Int64Facts(p);
    } else {
      LastCheckFull(n);
    }
  }

  /** With INT_MAX chunks the product is not positive unless it wraps around. */
  lemma LastCheckFull(n: nat)
    requires 0 < n <= LLONG_MAX && n % INT_MAX < n / INT_MAX
    ensures Int64((n / INT_MAX) * Int32(INT_MAX + 1)) >= n <==> RoomForNext(n, INT_MAX)
  {
    assert Int32(INT_MAX + 1) == -0x8000_0000;
  }

  /**
   The most chunks within the limit whose blocks have the least size: blocks
   are no smaller, and one more chunk would make them smaller.  This is so unless
   the number of such blocks exceeds an int.
   */
  ghost predicate AsManyAsFit(n: nat, minBlock: nat, maxChunks: int, c: nat)
    requires c > 0 && minBlock > 0
  {
    n / minBlock <= INT_MAX ==>
    && (if n < minBlock then c == 1 else n / c >= minBlock)
    && (maxChunks > 0 ==> c <= maxChunks)
    && (maxChunks <= 0 || c < maxChunks ==> n / (c + 1) < minBlock)
  }

  lemma FitsAlways(n: nat, minBlock: nat, maxChunks: Int)
    requires n > 0 && minBlock > 0 && Chunks(n, minBlock, maxChunks) > 0
    ensures AsManyAsFit(n, minBlock, maxChunks, Chunks(n, minBlock, maxChunks))
  {
    DivideBack(n, minBlock);
    if n / minBlock <= INT_MAX {
      if n / minBlock < 0 { MulMonotone(minBlock, n / minBlock, -1); }
      FitsExactly(n, minBlock, maxChunks, n / minBlock);
    }
  }

  lemma FitsExactly(n: nat, minBlock: nat, maxChunks: Int, q: int)
    requires n > 0 && minBlock > 0 && q == n / minBlock && 0 <= q <= INT_MAX
    ensures var c := Chunks(n, minBlock, maxChunks); c > 0 && AsManyAsFit(n, minBlock, maxChunks, c)
  {
    var c := Chunks(n, minBlock, maxChunks);
    assert c == (var d := if q == 0 then 1 else q; if 0 < maxChunks < d then maxChunks else d);
    DivideBack(n, minBlock);
    if n < minBlock {
      QuotientUnique(n, 0, n, minBlock);
    } else {
      AtLeastOne(n, minBlock);
      EnoughEach(n, minBlock, c, q, n % minBlock);
    }
    if maxChunks <= 0 || c < maxChunks { OneMoreTooMany(n, minBlock, c, q, n % minBlock); }
  }

  lemma AtLeastOne(n: nat, b: nat)
    requires n >= b > 0
    ensures n / b >= 1
  {
    DivideBack(n, b);
    if n / b < 1 { MulMonotone(b, n / b, 0); }
  }

  lemma EnoughEach(n: nat, minBlock: nat, c: nat, q: nat, r: nat)
    requires n == minBlock * q + r && 0 < c <= q
    ensures n / c >= minBlock
  {
    MulMonotone(minBlock, c, q);
    BlockAtLeast(n, c, minBlock);
  }

  lemma OneMoreTooMany(n: nat, minBlock: nat, c: nat, q: nat, r: nat)
    requires n == minBlock * q + r && r < minBlock && c >= q
    ensures n / (c + 1) < minBlock
  {
    var d := n / (c + 1);
    DivideBack(n, c + 1);
    MulMonotone(minBlock, q + 1, c + 1);
    if d >= minBlock { MulMonotone(c + 1, minBlock, d); }
  }

  lemma UsedUp(n: nat, c: int)
    requires c != 0 && n > 0
    ensures c > 0 ==> n - Quotient(n, c) * c == n % c && c * (n / c) <= n
    ensures c < 0 ==> n - Quotient(n, c) * c >= 0 >= Quotient(n, c)
  {
    if c > 0 {
      DivideBack(n, c);
    } else {
      var d, q := -c, n / -c;
      DivideBack(n, d);
      assert (-q) * c == q * d;
    }
  }

  /** Below 2^62 rows only INT_MAX chunks leave no room. */
  lemma RoomBelow(n: nat, c: nat)
    requires 0 < c <= INT_MAX && n < 0x4000_0000_0000_0000
    ensures RoomForNext(n, c) <==> c < INT_MAX
  {
    DivideBack(n, c);
    assert (n / c) * (c + 1) == n - n % c + n / c;
  }

  /**
   Without a limit on the chunks the remainder is smaller than the least
   block.  The call succeeds exactly when the number of chunks and the last
   check fit their types; from 2^31 to 2^32 chunks it always fails.
   */
  lemma NoLimitExactly(n: Long, minBlock: Long, maxChunks: Int)
    requires n > 0 && minBlock > 0 && maxChunks <= 0 && n / minBlock < 0x1_0000_0000
    ensures var c := Chunks(n, minBlock, maxChunks);
            && (Divides(n, c) <==> n / minBlock <= INT_MAX && RoomForNext(n, c))
            && (n < 0x4000_0000_0000_0000 ==> (Divides(n, c) <==> n / minBlock < INT_MAX))
  {
    var q: nat := n / minBlock;
    DivideBack(n, minBlock);
    if 0 < q <= INT_MAX { RemainderSmall(n, q, minBlock, n % minBlock); }
    if q <= INT_MAX && n < 0x4000_0000_0000_0000 { RoomBelow(n, Chunks(n, minBlock, maxChunks)); }
  }

  lemma RemainderSmall(n: nat, q: nat, minBlock: nat, r: nat)
    requires q > 0 && r < minBlock && n == minBlock * q + r
    ensures n % q < n / q
  {
    var d, e := Divide(r, q);
    Distribute(q, minBlock, d);
    QuotientUnique(n, minBlock + d, e, q);
  }

  lemma Divide(r: nat, q: nat) returns (d: nat, e: nat)
    requires q > 0
    ensures r == q * d + e && e < q && e <= r
  {
    d, e := r / q, r % q;
    DivideBack(r, q);
    assert q * d >= 0;
  }

  lemma Distribute(q: nat, m: nat, d: nat)
    ensures q * (m + d) == m * q + q * d
  {}

  /** One row per chunk: INT_MAX rows fail in the last check, one more in the number of chunks. */
  lemma WrapFails()
    ensures Chunks(0x7FFF_FFFF, 1, -1) == INT_MAX && !Divides(0x7FFF_FFFF, INT_MAX)
    ensures Chunks(0x8000_0000, 1, -1) == -0x8000_0000
  {}

  /** From 2^32 chunks on their number may come out positive: 2^32 rows are one chunk, some others fail. */
  lemma WrapsBack()
    ensures Chunks(0x1_0000_0000, 1, -1) == 1 && Divides(0x1_0000_0000, 1)
    ensures Chunks(0x1_7FFF_FC18, 1, -1) == 0x7FFF_FC18 && !Divides(0x1_7FFF_FC18, 0x7FFF_FC18)
  {}

  /** With a limit there can be an error: 10 rows in at most 4 chunks leave 2 rows beside blocks of 2. */
  lemma LimitCanFail()
    ensures Chunks(10, 1, 4) == 4 && !Divides(10, 4) && RoomForNext(10, 4)
  {}

  /** But not while the limit is at most the least block, as in vec_f_to_s.c:47. */
  lemma SmallLimitExactly(n: Long, minBlock: Long, maxChunks: Int)
    requires n > 0 && 0 < maxChunks <= minBlock && n / minBlock < 0x1_0000_0000
    ensures var c := Chunks(n, minBlock, maxChunks);
            && (Divides(n, c) <==> n / minBlock <= INT_MAX && RoomForNext(n, c))
            && (n < 0x4000_0000_0000_0000 ==> (Divides(n, c) <==> n / minBlock <= INT_MAX && c < INT_MAX))
  {
    var c := Chunks(n, minBlock, maxChunks);
    LimitedChunks(n, minBlock, maxChunks, n / minBlock);
    if n / minBlock <= INT_MAX {
      LimitedRemainder(n, n / minBlock, c, minBlock);
      if n < 0x4000_0000_0000_0000 { RoomBelow(n, c); }
    }
  }

  lemma LimitedChunks(n: nat, minBlock: nat, maxChunks: Int, q: int)
    requires minBlock > 0 && q == n / minBlock < 0x1_0000_0000 && 0 < maxChunks
    ensures var c := Chunks(n, minBlock, maxChunks);
            if q <= INT_MAX then 0 < c <= maxChunks && (c <= q || (q == 0 && c == 1)) else c < 0
  {}

  lemma LimitedRemainder(n: nat, q: int, c: nat, minBlock: nat)
    requires n > 0 && minBlock > 0 && q == n / minBlock && 0 < c <= minBlock && (c <= q || c == 1)
    ensures n % c < n / c
  {
    DivideBack(n, minBlock);
    if c <= q { FewChunks(n, q, c, minBlock, n % minBlock); }
  }

  lemma FewChunks(n: nat, q: nat, c: nat, minBlock: nat, r: nat)
    requires 0 < c <= q && c <= minBlock && n == minBlock * q + r
    ensures n % c < n / c
  {
    MulMonotone(minBlock, c, q);
    BlockAtLeast(n, c, minBlock);
  }

  lemma BlockAtLeast(n: nat, c: nat, minBlock: nat)
    requires c > 0 && minBlock * c <= n
    ensures n / c >= minBlock
  {
    DivideBack(n, c);
    var d := n / c;
    assert c * d + c > c * minBlock;
    if d + 1 <= minBlock { MulMonotone(c, d + 1, minBlock); }
    assert c * (d + 1) == c * d + c;
  }

  // ----- counting

  /** How many selected rows from `lb` to `ub` have value `j`. */
  function Hist(x: seq<int>, cf: Mask, j: int, lb: nat, ub: nat): nat
    requires ub <= |x|
  {
    if ub <= lb then 0 else Hist(x, cf, j, lb, ub - 1) + if On(cf, ub - 1) && x[ub-1] == j then 1 else 0
  }

  /** That is the number of those rows. */
  lemma {:induction false} HistIs(x: seq<int>, cf: Mask, j: int, lb: nat, ub: nat)
    requires lb <= ub <= |x|
    ensures Hist(x, cf, j, lb, ub) == |set i | lb <= i < ub && On(cf, i) && x[i] == j|
    decreases ub
  {
    if lb < ub {
      var m := ub - 1;
      HistIs(x, cf, j, lb, m);
      assert (set i | lb <= i < ub && On(cf, i) && x[i] == j)
          == (set i | lb <= i < m && On(cf, i) && x[i] == j) + if On(cf, m) && x[m] == j then {m} else {};
    }
  }

  lemma {:induction false} HistSplit(x: seq<int>, cf: Mask, j: int, a: nat, b: nat, c: nat)
    requires a <= b <= c <= |x|
    ensures Hist(x, cf, j, a, c) == Hist(x, cf, j, a, b) + Hist(x, cf, j, b, c)
    decreases c
  {
    if b < c { HistSplit(x, cf, j, a, b, c - 1); }
  }

  /** Every selected value is a row of the destination table. */
  predicate InRange(x: seq<int>, cf: Mask, dst: nat) {
    forall i :: 0 <= i < |x| && On(cf, i) ==> 0 <= x[i] < dst
  }

  /** `h` is the histogram of rows `lb` to `ub`. */
  ghost predicate IsPart(x: seq<int>, cf: Mask, dst: nat, lb: nat, ub: nat, h: seq<int>) {
    ub <= |x| && |h| == dst && forall j :: 0 <= j < dst ==> h[j] == Hist(x, cf, j, lb, ub)
  }

  /** The kernel count_I4 or count_nn_I4 on rows `lb` to `ub` adds to what is there. */
  method CountInto(x: seq<int>, cf: Mask, lb: nat, ub: nat, cnt: array<int>)
    requires InRange(x, cf, cnt.Length) && lb <= ub <= |x|
    modifies cnt
    ensures forall j :: 0 <= j < cnt.Length ==> cnt[j] == old(cnt[j]) + Hist(x, cf, j, lb, ub)
  {
    var i := lb;
    while i < ub
      invariant lb <= i <= ub
      invariant forall j :: 0 <= j < cnt.Length ==> cnt[j] == old(cnt[j]) + Hist(x, cf, j, lb, i)
    {
      if cf.All? || (i < |cf.bits| && cf.bits[i]) { cnt[x[i]] := cnt[x[i]] + 1; }
      i := i + 1;
    }
  }

  /** A thread's partial histogram: the kernel on an array of zeroes. */
  method CountRows(x: seq<int>, cf: Mask, dst: nat, lb: nat, ub: nat) returns (h: seq<int>)
    requires InRange(x, cf, dst) && lb <= ub <= |x|
    ensures IsPart(x, cf, dst, lb, ub, h)
  {
    var cnt := new int[dst](_ => 0);
    CountInto(x, cf, lb, ub, cnt);
    h := cnt[..];
  }

  /**
   No further thread pays: adding up the partial results costs as much as
   making them, or there is no core or no work for it.
   */
  predicate Enough(src: nat, dst: nat, cores: int, nT: nat)
    requires nT > 0
  {
    dst * nT >= 8 * (src / nT) || src < 1024 || nT >= cores
  }

  /** compute_nT_for_count: the least number of threads that is enough. */
  method ThreadsForCount(src: nat, dst: nat, cores: int) returns (nT: nat)
    ensures 1 <= nT && Enough(src, dst, cores, nT) && (nT == 1 || nT <= cores)
    ensures forall m :: 1 <= m < nT ==> !Enough(src, dst, cores, m)
  {
    nT := 1;
    var seqTime, parTime := dst * nT, src / nT;
    while seqTime < 8 * parTime
      invariant 1 <= nT && (nT == 1 || nT <= cores) && seqTime == dst * nT && parTime == src / nT
      invariant forall m :: 1 <= m < nT ==> !Enough(src, dst, cores, m)
      decreases cores - nT
    {
      if src < 1024 { break; }
      if nT >= cores { break; }
      assert !Enough(src, dst, cores, nT);
      nT := nT + 1;
      seqTime, parTime := dst * nT, src / nT;
    }
  }

  /** The partial histogram of each thread. */
  method Partials(x: seq<int>, cf: Mask, dst: nat, nT: nat, block: nat) returns (parts: seq<seq<int>>)
    requires InRange(x, cf, dst) && nT > 0 && Scale(block, nT) <= |x|
    ensures |parts| == nT
    ensures forall t :: 0 <= t < nT ==> IsPart(x, cf, dst, Scale(block, t), Hi(|x|, block, nT, t), parts[t])
  {
    parts := [];
    var t := 0;
    while t < nT
      invariant 0 <= t <= nT && |parts| == t
      invariant forall s :: 0 <= s < t ==> IsPart(x, cf, dst, Scale(block, s), Hi(|x|, block, nT, s), parts[s])
    {
      var h := PartialOf(x, cf, dst, nT, block, t);
      parts := parts + [h];
      t := t + 1;
    }
  }

  method PartialOf(x: seq<int>, cf: Mask, dst: nat, nT: nat, block: nat, t: nat) returns (h: seq<int>)
    requires InRange(x, cf, dst) && t < nT && Scale(block, nT) <= |x|
    ensures IsPart(x, cf, dst, Scale(block, t), Hi(|x|, block, nT, t), h)
  {
    ScaleMonotone(block, t + 1, nT);
    var lb := Scale(block, t);
    var ub := if t + 1 == nT then |x| else lb + block;
    h := CountRows(x, cf, dst, lb, ub);
  }

  /** Where the first `t` chunks end. */
  function Done(n: nat, block: nat, nT: nat, t: nat): nat {
    if t == nT then n else Scale(block, t)
  }

  lemma ReduceStep(x: seq<int>, cf: Mask, j: int, block: nat, nT: nat, t: nat, next: nat)
    requires t < nT && next == t + 1 && Scale(block, nT) <= |x|
    ensures Done(|x|, block, nT, t) <= |x| && Done(|x|, block, nT, next) <= |x| && Hi(|x|, block, nT, t) <= |x|
    ensures Hist(x, cf, j, 0, Done(|x|, block, nT, next)) ==
        Hist(x, cf, j, 0, Done(|x|, block, nT, t)) + Hist(x, cf, j, Scale(block, t), Hi(|x|, block, nT, t))
  {
    ScaleMonotone(block, next, nT);
    HistSplit(x, cf, j, 0, Scale(block, t), Hi(|x|, block, nT, t));
  }

  method ZeroRange(cnt: array<int>, lb: nat, ub: nat)
    requires lb <= ub <= cnt.Length
    modifies cnt
    ensures forall j :: 0 <= j < cnt.Length ==> cnt[j] == if lb <= j < ub then 0 else old(cnt[j])
  {
    for i := lb to ub
      invariant forall j :: 0 <= j < cnt.Length ==> cnt[j] == if lb <= j < i then 0 else old(cnt[j])
    {
      cnt[i] := 0;
    }
  }

  /** The output starts from zero, chunk by chunk (count.c:122-139). */
  method ZeroChunks(cnt: array<int>, block: nat, nT: nat)
    requires nT > 0 && Scale(block, nT) <= cnt.Length
    modifies cnt
    ensures forall j :: 0 <= j < cnt.Length ==> cnt[j] == 0
  {
    for t := 0 to nT
      invariant forall j :: 0 <= j < cnt.Length && j < Done(cnt.Length, block, nT, t) ==> cnt[j] == 0
    {
      ScaleMonotone(block, t + 1, nT);
      var lb := Scale(block, t);
      ZeroRange(cnt, lb, if t + 1 == nT then cnt.Length else lb + block);
    }
  }

  /** Adding one partial histogram (count.c:270-273). */
  method AddPart(cnt: array<int>, part: seq<int>)
    requires |part| == cnt.Length
    modifies cnt
    ensures forall j :: 0 <= j < cnt.Length ==> cnt[j] == old(cnt[j]) + part[j]
  {
    var j := 0;
    while j < cnt.Length
      invariant 0 <= j <= cnt.Length
      invariant forall k :: 0 <= k < j ==> cnt[k] == old(cnt[k]) + part[k]
      invariant forall k :: j <= k < cnt.Length ==> cnt[k] == old(cnt[k])
    {
      cnt[j] := cnt[j] + part[j];
      j := j + 1;
    }
  }

  /** The reduction of the partial histograms. */
  method Reduce(x: seq<int>, cf: Mask, dst: nat, nT: nat, block: nat, parts: seq<seq<int>>, cnt: array<int>)
    requires cnt.Length == dst && |parts| == nT && nT > 0 && Scale(block, nT) <= |x|
    requires forall j :: 0 <= j < dst ==> cnt[j] == 0
    requires forall t :: 0 <= t < nT ==> IsPart(x, cf, dst, Scale(block, t), Hi(|x|, block, nT, t), parts[t])
    modifies cnt
    ensures forall j :: 0 <= j < dst ==> cnt[j] == Hist(x, cf, j, 0, |x|)
  {
    var t := 0;
    while t < nT
      invariant 0 <= t <= nT && Done(|x|, block, nT, t) <= |x|
      invariant forall j :: 0 <= j < dst ==> cnt[j] == Hist(x, cf, j, 0, Done(|x|, block, nT, t))
    {
      var next := t + 1;
      assert IsPart(x, cf, dst, Scale(block, t), Hi(|x|, block, nT, t), parts[t]);
      forall j | 0 <= j < dst
        ensures Done(|x|, block, nT, next) <= |x|
        ensures Hist(x, cf, j, 0, Done(|x|, block, nT, next)) ==
            Hist(x, cf, j, 0, Done(|x|, block, nT, t)) + parts[t][j]
      {
        ReduceStep(x, cf, j, block, nT, t, next);
      }
      ReduceStep(x, cf, 0, block, nT, t, next);
      AddPart(cnt, parts[t]);
      t := next;
    }
  }

  /** How many selected rows there are. */
  function Selected(cf: Mask, n: nat): nat {
    if n == 0 then 0 else Selected(cf, n - 1) + if On(cf, n - 1) then 1 else 0
  }

  lemma {:induction false} SelectedIs(cf: Mask, n: nat)
    ensures Selected(cf, n) == |set i | 0 <= i < n && On(cf, i)|
  {
    if n > 0 {
      var m := n - 1;
      SelectedIs(cf, m);
      assert (set i | 0 <= i < n && On(cf, i)) == (set i | 0 <= i < m && On(cf, i)) + if On(cf, m) then {m} else {};
    }
  }

  /** The counts below `d` of the first `n` rows. */
  function TotalHist(x: seq<int>, cf: Mask, d: nat, n: nat): nat
    requires n <= |x|
  {
    if d == 0 then 0 else TotalHist(x, cf, d - 1, n) + Hist(x, cf, d - 1, 0, n)
  }

  lemma {:induction false} TotalIs(x: seq<int>, cf: Mask, h: seq<int>, d: nat)
    requires d <= |h| && forall j :: 0 <= j < |h| ==> h[j] == Hist(x, cf, j, 0, |x|)
    ensures Total(h[..d]) == TotalHist(x, cf, d, |x|)
  {
    if d > 0 {
      TotalIs(x, cf, h, d - 1);
      assert h[..d][..d-1] == h[..d-1];
    }
  }

  lemma {:induction false} TotalNone(x: seq<int>, cf: Mask, d: nat)
    ensures TotalHist(x, cf, d, 0) == 0
  {
    if d > 0 { TotalNone(x, cf, d - 1); }
  }

  lemma {:induction false} TotalStep(x: seq<int>, cf: Mask, d: nat, n: nat, next: nat)
    requires next == n + 1 <= |x|
    ensures TotalHist(x, cf, d, next) == TotalHist(x, cf, d, n) + if On(cf, n) && 0 <= x[n] < d then 1 else 0
  {
    if d > 0 { TotalStep(x, cf, d - 1, n, next); }
  }

  /** Every selected row is counted once. */
  lemma {:induction false} TotalSelected(x: seq<int>, cf: Mask, dst: nat, n: nat)
    requires InRange(x, cf, dst) && n <= |x|
    ensures TotalHist(x, cf, dst, n) == Selected(cf, n)
  {
    if n == 0 {
      TotalNone(x, cf, dst);
    } else {
      TotalSelected(x, cf, dst, n - 1);
      TotalStep(x, cf, dst, n - 1, n);
    }
  }

  /**
   count: the histogram of the selected rows, however many threads take part.
   It is refused exactly for tables of INT_MAX rows or more and for an empty
   destination; for no other destination does partition fail.
   */
  method Count(x: seq<int>, cf: Mask, dst: nat, cores: int) returns (status: int, cnt: seq<int>)
    requires InRange(x, cf, dst)
    ensures status == if 0 < dst < INT_MAX && |x| < INT_MAX then 0 else -1
    ensures status == 0 ==> |cnt| == dst && forall j :: 0 <= j < dst ==>
              cnt[j] == |set i | 0 <= i < |x| && On(cf, i) && x[i] == j|
    ensures status == 0 ==> Total(cnt) == |set i | 0 <= i < |x| && On(cf, i)|
  {
    status, cnt := 0, [];
    if dst >= INT_MAX || |x| >= INT_MAX { return -1, []; }
    var block, chunks;
    status, block, chunks := ZeroPlan(dst);
    if status < 0 { return; }
    var sums := new int[dst];
    ZeroChunks(sums, block, chunks);
    CountAll(x, cf, dst, cores, sums);
    cnt := sums[..];
    WholeTotal(x, cf, dst, cnt);
    SelectedIs(cf, |x|);
    forall j | 0 <= j < dst ensures cnt[j] == |set i | 0 <= i < |x| && On(cf, i) && x[i] == j| {
      HistIs(x, cf, j, 0, |x|);
    }
  }

  /** The chunks in which the output is set to zero. */
  method ZeroPlan(dst: nat) returns (status: int, block: nat, chunks: nat)
    requires dst < INT_MAX
    ensures status == if dst > 0 then 0 else -1
    ensures status == 0 ==> chunks > 0 && Scale(block, chunks) <= dst
  {
    block, chunks := 0, 0;
    var size, number;
    status, size, number := Partition(dst, 4096, -1);
    if dst > 0 {
      NoLimitExactly(dst, 4096, -1);
      block, chunks := size, number;
      ScaleIsProduct(block, chunks);
    }
  }

  lemma WholeTotal(x: seq<int>, cf: Mask, dst: nat, h: seq<int>)
    requires InRange(x, cf, dst) && |h| == dst && forall j :: 0 <= j < dst ==> h[j] == Hist(x, cf, j, 0, |x|)
    ensures Total(h) == Selected(cf, |x|)
  {
    TotalIs(x, cf, h, dst);
    TotalSelected(x, cf, dst, |x|);
    assert h[..dst] == h;
  }

  /** One thread counts into the output itself; several have their partial histograms added to it. */
  method CountAll(x: seq<int>, cf: Mask, dst: nat, cores: int, sums: array<int>)
    requires InRange(x, cf, dst) && sums.Length == dst && forall j :: 0 <= j < dst ==> sums[j] == 0
    modifies sums
    ensures forall j :: 0 <= j < dst ==> sums[j] == Hist(x, cf, j, 0, |x|)
  {
    var nT := ThreadsForCount(|x|, dst, cores);
    if nT == 1 {
      CountInto(x, cf, 0, |x|, sums);
    } else {
      var block := |x| / nT;
      DivideBack(|x|, nT);
      ScaleIsProduct(block, nT);
      var parts := Partials(x, cf, dst, nT, block);
      Reduce(x, cf, dst, nT, block, parts, sums);
    }
  }
}
