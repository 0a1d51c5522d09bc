/**
 approx_quantile (q-base/src/approx_quantile.c:141-571): the whole run, from
 the input column to the reported quantiles.
 */
module ApproxQuantile {
  import opened Arithmetic
  import opened Ranks
  import opened Sums
  import opened BufferParams
  import opened QuantileOutput
  import opened QuantileSketch
  import opened SketchState

  const MAX_SZ := 200 * 1048576

  /** The first `n` elements of `x` whose entry in `cfld` is non-zero, in order. */
  function Selected(x: seq<int>, cfld: seq<int>, n: nat): seq<int>
    requires n <= |x| && n <= |cfld|
  {
    if n == 0 then []
    else Selected(x, cfld, n - 1) + (if cfld[n-1] == 0 then [] else [x[n-1]])
  }

  lemma {:induction false} SelectedPrefix(x: seq<int>, cfld: seq<int>, m: nat, n: nat)
    requires m <= n <= |x| && n <= |cfld|
    ensures Selected(x, cfld, m) <= Selected(x, cfld, n)
  {
    if m < n { SelectedPrefix(x, cfld, m, n - 1); }
  }

  lemma {:induction false} SelectedLength(x: seq<int>, cfld: seq<int>, n: nat)
    requires n <= |x| && n <= |cfld|
    ensures |Selected(x, cfld, n)| <= n
  {
    if n > 0 { SelectedLength(x, cfld, n - 1); }
  }

  lemma {:induction false} SelectedAll(x: seq<int>, cfld: seq<int>, n: nat)
    requires n <= |x| && n <= |cfld| && |Selected(x, cfld, n)| == n
    ensures Selected(x, cfld, n) == x[..n]
  {
    if n > 0 {
      SelectedLength(x, cfld, n - 1);
      SelectedAll(x, cfld, n - 1);
    }
  }

  /** Their number, and that of those up to `v`, in terms of the rows. */
  lemma {:induction false} SelectedCounts(x: seq<int>, cfld: seq<int>, n: nat, v: int)
    requires n <= |x| && n <= |cfld|
    ensures |Selected(x, cfld, n)| == |set i | 0 <= i < n && cfld[i] != 0|
    ensures CountLE(Selected(x, cfld, n), v) == |set i | 0 <= i < n && cfld[i] != 0 && x[i] <= v|
  {
    if n > 0 {
      var m := n - 1;
      SelectedCounts(x, cfld, m, v);
      SelectedSets(cfld, m, n);
      SelectedUpTo(x, cfld, m, n, v);
      if cfld[m] != 0 {
        CountAppend(Selected(x, cfld, m), x[m], v);
      } else {
        assert Selected(x, cfld, n) == Selected(x, cfld, m);
      }
    }
  }

  lemma SelectedSets(cfld: seq<int>, m: nat, n: nat)
    requires n == m + 1 <= |cfld|
    ensures |set i | 0 <= i < n && cfld[i] != 0| == |set i | 0 <= i < m && cfld[i] != 0| + if cfld[m] != 0 then 1 else 0
  {
    assert (set i | 0 <= i < n && cfld[i] != 0)
        == (set i | 0 <= i < m && cfld[i] != 0) + if cfld[m] != 0 then {m} else {};
  }

  lemma SelectedUpTo(x: seq<int>, cfld: seq<int>, m: nat, n: nat, v: int)
    requires n == m + 1 <= |cfld| && n <= |x|
    ensures |set i | 0 <= i < n && cfld[i] != 0 && x[i] <= v|
         == |set i | 0 <= i < m && cfld[i] != 0 && x[i] <= v| + if cfld[m] != 0 && x[m] <= v then 1 else 0
  {
    assert (set i | 0 <= i < n && cfld[i] != 0 && x[i] <= v)
        == (set i | 0 <= i < m && cfld[i] != 0 && x[i] <= v) + if cfld[m] != 0 && x[m] <= v then {m} else {};
  }

  /** The elements approx_quantile works on. */
  ghost function Chosen(x: array<int>, cfld: array?<int>, siz: nat): seq<int>
    requires siz <= x.Length && (cfld != null ==> siz <= cfld.Length)
    reads x, cfld
  {
    if cfld == null then x[..siz] else Selected(x[..], cfld[..], siz)
  }

  /** eff_siz. */
  method CountSelected(x: array<int>, cfld: array<int>, siz: nat) returns (effSiz: nat)
    requires siz <= x.Length && siz <= cfld.Length
    ensures effSiz == |Selected(x[..], cfld[..], siz)|
  {
    effSiz := 0;
    for ii := 0 to siz
      invariant effSiz == |Selected(x[..], cfld[..], ii)|
    {
      if cfld[ii] != 0 { effSiz := effSiz + 1; }
    }
  }

  /** The largest of 128, 64, ..., 1 packet slots that fits in memory. */
  ghost predicate ThreadsFit(b: nat, k: nat, numThreads: nat) {
    && 1 <= numThreads <= 128 && (b + numThreads + 10) * k <= MAX_SZ
    && (numThreads < 128 ==> (b + 2 * numThreads + 10) * k > MAX_SZ)
  }

  method ChooseThreads(b: nat, k: nat) returns (numThreads: nat)
    requires (b + 1 + 10) * k <= MAX_SZ
    ensures ThreadsFit(b, k, numThreads) && numThreads in {128, 64, 32, 16, 8, 4, 2, 1}
  {
    numThreads := 128;
    while (b + numThreads + 10) * k > MAX_SZ
      invariant numThreads in {128, 64, 32, 16, 8, 4, 2, 1}
      invariant numThreads < 128 ==> (b + 2 * numThreads + 10) * k > MAX_SZ
      decreases numThreads
    {
      numThreads := numThreads / 2;
    }
  }

  /** Where packet `t` of a block that starts at position `c` begins. */
  function Start(c: nat, k: nat, t: nat): nat {
    c + Scale(k, t)
  }

  /** `p` is packet `t` of a block of `s` that starts at `c`. */
  ghost predicate IsPacket(p: seq<int>, s: seq<int>, c: nat, k: nat, t: nat) {
    Start(c, k, t) + k <= |s| && p == s[Start(c, k, t)..Start(c, k, t) + k]
  }

  /** `full` whole packets from position `c` of `s` on, and what is left of `s` if that is less than a packet. */
  ghost predicate Block(pk: seq<seq<int>>, used: seq<nat>, last: seq<int>, s: seq<int>, c: nat, k: nat, full: nat) {
    && full <= |pk| == |used| && Start(c, k, full) + |last| <= |s| && |last| < k
    && (forall t :: 0 <= t < full ==> used[t] == k && IsPacket(pk[t], s, c, k, t))
    && (forall t :: full <= t < |used| ==> used[t] != k)
    && last == s[Start(c, k, full)..Start(c, k, full) + |last|]
  }

  // ----- loading a block, when every element counts

  lemma PastEnd(c: nat, k: nat, full: nat, tid: nat)
    requires full < tid
    ensures Start(c, k, tid) >= Start(c, k, full) + k
  {
    ScaleMonotone(k, full + 1, tid);
  }

  /** One thread's slice: `lb` and `ub` bound its packet, and the last one may be short. */
  method LoadSlice(x: array<int>, siz: nat, lb: nat, k: nat) returns (packet: seq<int>, used: nat, last: seq<int>)
    requires k > 0 && siz <= x.Length
    ensures lb + k <= siz ==> used == k && packet == x[..siz][lb..lb + k] && last == []
    ensures lb + k > siz ==> used == 0 && last == if lb < siz then x[..siz][lb..] else []
  {
    packet, used, last := [], 0, [];
    var ub := lb + k;
    if lb >= siz { return; }
    if ub >= siz {
      ub := siz;
      if ub - lb != k {
        last := x[lb..ub];
      } else {
        packet, used := x[lb..ub], ub - lb;
      }
      return;
    }
    packet, used := x[lb..ub], ub - lb;
  }

  /** The state of the unmasked path before thread `tid`. */
  ghost predicate Sliced(pk: seq<seq<int>>, used: seq<nat>, last: seq<int>, s: seq<int>, c: nat, k: nat, full: nat,
                         tid: nat) {
    && |pk| == |used| == tid && Block(pk, used, last, s, c, k, full)
    && (full == tid ==> last == [])
    && (full < tid ==> Start(c, k, full) + |last| == |s|)
  }

  /** What one more thread's slice adds to the block. */
  lemma SliceAdded(pk: seq<seq<int>>, used: seq<nat>, last: seq<int>, s: seq<int>, c: nat, k: nat, full: nat,
                   tid: nat, lb: nat, packet: seq<int>, n: nat, rest: seq<int>, full': nat, last': seq<int>)
    requires k > 0 && lb == Start(c, k, tid) && Sliced(pk, used, last, s, c, k, full, tid)
    requires lb + k <= |s| ==> n == k && packet == s[lb..lb + k] && rest == []
    requires lb + k > |s| ==> n == 0 && rest == if lb < |s| then s[lb..] else []
    requires full' == (if n == k then full + 1 else full) && last' == if rest != [] then rest else last
    ensures Sliced(pk + [packet], used + [n], last', s, c, k, full', tid + 1)
    ensures Start(c, k, full') == Start(c, k, full) + n && Start(c, k, tid + 1) == lb + k
  {
    if full < tid { PastEnd(c, k, full, tid); }
  }

  /** The unmasked path: thread `tid` takes the packet at current_loc_in_x + tid * k. */
  method LoadAll(x: array<int>, siz: nat, loc0: nat, k: nat, numThreads: nat)
    returns (packets: seq<seq<int>>, used: seq<nat>, last: seq<int>, loc: nat, ghost full: nat)
    requires k > 0 && loc0 < siz <= x.Length && numThreads > 0
    ensures |packets| == numThreads && Block(packets, used, last, x[..siz], loc0, k, full)
    ensures loc == Start(loc0, k, full) + |last| && loc0 < loc <= siz
    ensures loc < siz ==> full == numThreads && last == []
  {
    ghost var s := x[..siz];
    packets, used, last, full := [], [], [], 0;
    loc := loc0;
    var start := loc0;
    for tid := 0 to numThreads
      invariant start == Start(loc0, k, tid) && loc == Start(loc0, k, full)
      invariant Sliced(packets, used, last, s, loc0, k, full, tid)
    {
      var packet, n, rest := LoadSlice(x, siz, start, k);
      ghost var f, l := full, last;
      if rest != [] {
        last := rest;
      }
      if n == k {
        full := full + 1;
      }
      SliceAdded(packets, used, l, s, loc0, k, f, tid, start, packet, n, rest, full, last);
      packets, used := packets + [packet], used + [n];
      loc := loc + n;
      start := start + k;
    }
    loc := loc + |last|;
    if full > 0 { PastEnd(loc0, k, 0, full); }
  }

  // ----- loading a block, when a mask selects the elements

  /** The packets being filled: those before `tid` are whole, `tid` is under way, the rest are empty. */
  ghost predicate Filling(pk: seq<seq<int>>, used: seq<nat>, s: seq<int>, c: nat, k: nat, tid: nat, n: nat) {
    && tid <= |pk| == |used| && n == Start(c, k, tid) + Under(pk, tid) <= |s|
    && (forall t :: 0 <= t < tid ==> used[t] == k && IsPacket(pk[t], s, c, k, t))
    && (forall t :: tid < t < |used| ==> used[t] == 0 && pk[t] == [])
    && (tid < |pk| ==> used[tid] == |pk[tid]| < k && pk[tid] == s[Start(c, k, tid)..n])
  }

  ghost function Under(pk: seq<seq<int>>, tid: nat): nat {
    if tid < |pk| then |pk[tid]| else 0
  }

  /** Adding the next selected element to the packet under way. */
  lemma FillOne(pk: seq<seq<int>>, used: seq<nat>, s: seq<int>, c: nat, k: nat, tid: nat, n: nat,
                e: int, n': nat, tid': nat, pk': seq<seq<int>>, used': seq<nat>)
    requires Filling(pk, used, s, c, k, tid, n) && tid < |pk| && n < |s| && e == s[n] && n' == n + 1
    requires pk' == pk[tid := pk[tid] + [e]] && used' == used[tid := used[tid] + 1]
    requires tid' == if used'[tid] == k then tid + 1 else tid
    ensures Filling(pk', used', s, c, k, tid', n') && n' > c
  {
    assert pk'[tid] == s[Start(c, k, tid)..n+1];
    if used'[tid] == k {
      assert Start(c, k, tid + 1) == n + 1;
      if tid + 1 < |pk| { assert pk'[tid + 1] == []; }
      forall t | 0 <= t < tid + 1 ensures used'[t] == k && IsPacket(pk'[t], s, c, k, t) {
        if t < tid { assert used[t] == k && IsPacket(pk[t], s, c, k, t); }
      }
    }
  }

  lemma SelectedNext(x: seq<int>, cfld: seq<int>, i: nat, siz: nat)
    requires i < siz <= |x| && siz <= |cfld| && cfld[i] != 0
    ensures |Selected(x, cfld, i + 1)| == |Selected(x, cfld, i)| + 1 <= |Selected(x, cfld, siz)|
    ensures Selected(x, cfld, siz)[|Selected(x, cfld, i)|] == x[i]
  {
    SelectedPrefix(x, cfld, i + 1, siz);
  }

  /** The packet under way, if any, becomes the last packet; the whole ones make up the block. */
  lemma FillEnd(pk: seq<seq<int>>, used: seq<nat>, s: seq<int>, c: nat, k: nat, tid: nat, n: nat)
    requires k > 0 && Filling(pk, used, s, c, k, tid, n)
    ensures tid == |pk| ==> Block(pk, used, [], s, c, k, tid)
    ensures tid < |pk| ==> Block(pk, used[tid := 0], pk[tid], s, c, k, tid)
    ensures tid < |pk| && used[tid] == 0 ==> used[tid := 0] == used && pk[tid] == []
  {}

  /** The state of the scan before row `loc`. */
  ghost predicate Scanned(xs: seq<int>, cs: seq<int>, siz: nat, loc0: nat, loc: nat, k: nat, numThreads: nat,
                          pk: seq<seq<int>>, used: seq<nat>, tid: nat)
    requires loc0 <= siz <= |xs| && loc <= siz <= |cs|
  {
    var c, n := |Selected(xs, cs, loc0)|, |Selected(xs, cs, loc)|;
    && tid <= numThreads == |pk|
    && Filling(pk, used, Selected(xs, cs, siz), c, k, tid, n)
    && (tid == numThreads ==> loc > loc0 && cs[loc - 1] != 0)
    && (loc > loc0 && n == c ==> cs[loc - 1] == 0)
  }

  lemma ScanStarts(xs: seq<int>, cs: seq<int>, siz: nat, loc0: nat, k: nat, numThreads: nat)
    requires loc0 <= siz <= |xs| && siz <= |cs| && k > 0 && numThreads > 0
    ensures Scanned(xs, cs, siz, loc0, loc0, k, numThreads, seq(numThreads, _ => []), seq(numThreads, _ => 0), 0)
  {
    SelectedPrefix(xs, cs, loc0, siz);
  }

  /** One row of the scan: a selected element goes to the packet under way. */
  method FillRow(x: int, flag: int, k: nat, numThreads: nat, packets0: seq<seq<int>>, used0: seq<nat>, tid0: nat,
                 ghost xs: seq<int>, ghost cs: seq<int>, ghost siz: nat, ghost loc0: nat, ghost loc: nat,
                 ghost next: nat)
    returns (packets: seq<seq<int>>, used: seq<nat>, tid: nat)
    requires loc0 <= loc < siz <= |xs| && siz <= |cs| && next == loc + 1 && x == xs[loc] && flag == cs[loc]
    requires Scanned(xs, cs, siz, loc0, loc, k, numThreads, packets0, used0, tid0) && tid0 < numThreads
    ensures Scanned(xs, cs, siz, loc0, next, k, numThreads, packets, used, tid)
  {
    packets, used, tid := packets0, used0, tid0;
    if flag != 0 {
      packets := packets[tid := packets[tid] + [x]];
      used := used[tid := used[tid] + 1];
      if used[tid] == k { tid := tid + 1; }
      SelectedNext(xs, cs, loc, siz);
      FillOne(packets0, used0, Selected(xs, cs, siz), |Selected(xs, cs, loc0)|, k, tid0, |Selected(xs, cs, loc)|, x,
          |Selected(xs, cs, next)|, tid, packets, used);
    }
  }

  /** The scan: selected elements fill one packet after the other. */
  method FillMasked(x: array<int>, cfld: array<int>, siz: nat, loc0: nat, k: nat, numThreads: nat)
    returns (packets: seq<seq<int>>, used: seq<nat>, loc: nat, tid: nat)
    requires k > 0 && loc0 < siz <= x.Length && siz <= cfld.Length && numThreads > 0
    ensures loc0 < loc <= siz && (loc < siz ==> tid == numThreads)
    ensures Scanned(x[..], cfld[..], siz, loc0, loc, k, numThreads, packets, used, tid)
  {
    ghost var xs, cs := x[..], cfld[..];
    packets, used := seq(numThreads, _ => []), seq(numThreads, _ => 0);
    loc, tid := loc0, 0;
    ScanStarts(xs, cs, siz, loc0, k, numThreads);
    while loc < siz && tid < numThreads
      invariant loc0 <= loc <= siz && Scanned(xs, cs, siz, loc0, loc, k, numThreads, packets, used, tid)
      decreases siz - loc
    {
      var next := loc + 1;
      packets, used, tid := FillRow(x[loc], cfld[loc], k, numThreads, packets, used, tid, xs, cs, siz, loc0, loc, next);
      loc := next;
    }
  }

  /**
   The masked path.  `overrun` tells that the code went on to read
   inputPacketsUsedSiz[NUM_THREADS], one past the end of that array; the other
   results are those before this read.
   */
  method LoadMasked(x: array<int>, cfld: array<int>, siz: nat, loc0: nat, k: nat, numThreads: nat)
    returns (packets: seq<seq<int>>, used: seq<nat>, last: seq<int>, loc: nat, overrun: bool, ghost full: nat)
    requires k > 0 && loc0 < siz <= x.Length && siz <= cfld.Length && numThreads > 0
    ensures |packets| == numThreads && full <= numThreads
    ensures Block(packets, used, last, Selected(x[..], cfld[..], siz), |Selected(x[..], cfld[..], loc0)|, k, full)
    ensures loc0 < loc <= siz
    ensures |Selected(x[..], cfld[..], loc)| == Start(|Selected(x[..], cfld[..], loc0)|, k, full) + |last|
    ensures loc < siz ==> full == numThreads
    ensures full == numThreads ==> last == [] && cfld[loc - 1] != 0
    ensures full == 0 && last == [] ==> cfld[loc - 1] == 0
    ensures overrun <==> loc == siz && full == numThreads
  {
    var tid;
    packets, used, loc, tid := FillMasked(x, cfld, siz, loc0, k, numThreads);
    FillEnd(packets, used, Selected(x[..], cfld[..], siz), |Selected(x[..], cfld[..], loc0)|, k, tid,
        |Selected(x[..], cfld[..], loc)|);
    full, last, overrun := tid, [], false;
    if loc == siz {
      if tid == numThreads {
        overrun := true;
      } else if used[tid] != 0 && used[tid] != k {
        last := packets[tid];
        used := used[tid := 0];
      }
    }
  }

  // ----- taking in one block

  ghost predicate SameCounts(a: seq<int>, b: seq<int>) {
    |a| == |b| && forall v :: CountLE(a, v) == CountLE(b, v)
  }

  /** Extending both sides by a packet, sorted on one of them. */
  lemma SameCountsExtend(a: seq<int>, s: seq<int>, n: nat, k: nat)
    requires n + k <= |s| && SameCounts(a, s[..n])
    ensures SameCounts(a + Sort(s[n..n+k]), s[..n+k])
  {
    var p := s[n..n+k];
    SortFacts(p);
    assert s[..n+k] == s[..n] + p;
    forall v ensures CountLE(a + Sort(p), v) == CountLE(s[..n+k], v) {
      CountConcat(a, Sort(p), v);
      CountConcat(s[..n], p, v);
    }
  }

  lemma ScaleCancel(k: nat, m: nat, n: nat)
    requires k > 0 && Scale(k, m) <= Scale(k, n)
    ensures m <= n
  {
    if m > n { ScaleMonotone(k, n + 1, m); }
  }

  /** The sketch never outgrows 2^(b-1) while packets remain. */
  lemma RoomLeft(bufs: seq<seq<int>>, ws: seq<int>, level: seq<nat>, source: seq<seq<int>>, k: nat, consumed: seq<int>,
                 p: nat)
    requires k > 0 && Tracks(bufs, ws, level, source, k, consumed)
    ensures |consumed| <= Scale(k, p) ==> 0 <= Total(ws) <= p
    ensures |consumed| + k <= Scale(k, p) ==> 0 <= Total(ws) < p
  {
    TotalNonNegative(ws);
    if |consumed| + k <= Scale(k, p) {
      ScaleCancel(k, Total(ws) + 1, p);
    } else if |consumed| <= Scale(k, p) {
      ScaleCancel(k, Total(ws), p);
    }
  }

  /** No sum of weights exceeds an int while there are at most INT_MAX whole packets. */
  lemma WeightsFit(bufs: seq<seq<int>>, ws: seq<int>, level: seq<nat>, source: seq<seq<int>>, k: nat,
                   consumed: seq<int>)
    requires k > 0 && Tracks(bufs, ws, level, source, k, consumed) && |consumed| <= k * INT_MAX
    ensures Total(ws) <= INT_MAX
  {
    TotalNonNegative(ws);
    ScaleIsProduct(k, Total(ws));
    if Total(ws) > INT_MAX { MulMonotone(k, INT_MAX + 1, Total(ws)); }
  }

  /** Steps (1) to (3) for one block: sort every whole packet and absorb it. */
  method AbsorbBlock(sk: Sketch, packets: seq<seq<int>>, used: seq<nat>,
                     ghost last: seq<int>, ghost s: seq<int>, ghost c: nat, ghost full: nat)
    requires sk.Valid() && sk.k > 0 && Block(packets, used, last, s, c, sk.k, full)
    requires c <= |s| <= Scale(sk.k, Pow2(sk.b - 1)) && |s| <= sk.k * INT_MAX && SameCounts(sk.consumed, s[..c])
    modifies sk, sk.weight, sk.buffer
    ensures sk.Valid() && SameCounts(sk.consumed, s[..Start(c, sk.k, full)])
  {
    ghost var m := 0;
    for tid := 0 to |packets|
      invariant sk.Valid() && m == if tid <= full then tid else full
      invariant Start(c, sk.k, m) <= |s| && SameCounts(sk.consumed, s[..Start(c, sk.k, m)])
    {
      if used[tid] == sk.k {
        ghost var next := m + 1;
        assert IsPacket(packets[tid], s, c, sk.k, tid);
        AbsorbPacket(sk, packets[tid], s, c, m, next);
        m := next;
      }
    }
  }

  /** Sort one whole packet and absorb it. */
  method AbsorbPacket(sk: Sketch, packet: seq<int>, ghost s: seq<int>, ghost c: nat, ghost m: nat, ghost next: nat)
    requires sk.Valid() && sk.k > 0 && next == m + 1 && IsPacket(packet, s, c, sk.k, m) && |packet| == sk.k
    requires |s| <= Scale(sk.k, Pow2(sk.b - 1)) && |s| <= sk.k * INT_MAX && Start(c, sk.k, m) <= |s|
    requires SameCounts(sk.consumed, s[..Start(c, sk.k, m)])
    modifies sk, sk.weight, sk.buffer
    ensures sk.Valid() && Start(c, sk.k, next) <= |s| && SameCounts(sk.consumed, s[..Start(c, sk.k, next)])
  {
    SortFacts(packet);
    SameCountsExtend(sk.consumed, s, Start(c, sk.k, m), sk.k);
    RoomLeft(sk.bufs, sk.ws, sk.level, sk.source, sk.k, sk.consumed, Pow2(sk.b - 1));
    WeightsFit(sk.bufs, sk.ws, sk.level, sk.source, sk.k, sk.consumed);
    var _ := sk.Absorb(Sort(packet));
  }

  // ----- the whole input

  /** What has been looked at once position `n` of the column is reached. */
  ghost function Seen(x: seq<int>, cfld: seq<int>, masked: bool, n: nat): seq<int>
    requires n <= |x| && (masked ==> n <= |cfld|)
  {
    if masked then Selected(x, cfld, n) else x[..n]
  }

  ghost predicate MultipleOf(n: nat, d: nat) {
    exists m: nat :: n == Scale(d, m)
  }

  lemma NotMultiple(n: nat, d: nat, m: nat, r: nat)
    requires 0 < r < d && n == Scale(d, m) + r
    ensures !MultipleOf(n, d)
  {
    forall q: nat ensures n != Scale(d, q) {
      if q <= m { ScaleMonotone(d, q, m); } else { ScaleMonotone(d, m + 1, q); }
    }
  }

  /** One block from position `loc0`, by whichever path applies. */
  method LoadBlock(x: array<int>, cfld: array?<int>, masked: bool, siz: nat, loc0: nat, k: nat, numThreads: nat)
    returns (packets: seq<seq<int>>, used: seq<nat>, last: seq<int>, loc: nat, overrun: bool, ghost full: nat)
    requires k > 0 && loc0 < siz <= x.Length && numThreads > 0 && (masked ==> cfld != null && siz <= cfld.Length)
    ensures |packets| == numThreads && full <= numThreads
    ensures var cs := if masked then cfld[..] else [];
      Block(packets, used, last, Seen(x[..], cs, masked, siz), |Seen(x[..], cs, masked, loc0)|, k, full)
    ensures var cs := if masked then cfld[..] else [];
      loc0 < loc <= siz && |Seen(x[..], cs, masked, loc)| == Start(|Seen(x[..], cs, masked, loc0)|, k, full) + |last|
    ensures loc < siz ==> full == numThreads && last == []
    ensures overrun <==> masked && loc == siz && full == numThreads
    ensures masked && full == numThreads ==> last == [] && cfld[loc - 1] != 0
    ensures masked && full == 0 && last == [] ==> cfld[loc - 1] == 0
  {
    overrun := false;
    if masked {
      packets, used, last, loc, overrun, full := LoadMasked(x, cfld, siz, loc0, k, numThreads);
    } else {
      packets, used, last, loc, full := LoadAll(x, siz, loc0, k, numThreads);
      assert x[..][..siz] == x[..siz];
    }
  }

  /** How far the run has come: everything seen is absorbed, except a short last packet at the very end. */
  ghost predicate Progress(consumed: seq<int>, last: seq<int>, s: seq<int>, n: nat, k: nat, done: bool) {
    && |last| <= n <= |s| && |last| < k
    && SameCounts(consumed, s[..n - |last|]) && last == s[n - |last|..n]
    && (!done ==> last == [])
    && (done ==> n == |s|)
  }

  /** When the code reads past the array: the selected elements fill whole blocks and the last row is selected. */
  ghost predicate Overruns(s: seq<int>, blockLen: nat, lastFlag: int) {
    MultipleOf(|s|, blockLen) && lastFlag != 0
  }

  lemma OverrunDecided(s: seq<int>, k: nat, numThreads: nat, m: nat, full: nat, rest: nat, lastFlag: int)
    requires k > 0 && full <= numThreads && rest < k && |s| == Scale(Scale(k, numThreads), m) + Scale(k, full) + rest
    requires full == numThreads ==> rest == 0 && lastFlag != 0
    requires full == 0 && rest == 0 ==> lastFlag == 0
    ensures full == numThreads <==> Overruns(s, Scale(k, numThreads), lastFlag)
  {
    var d := Scale(k, numThreads);
    if full == numThreads {
      assert |s| == Scale(d, m + 1);
    } else {
      ScaleMonotone(k, full + 1, numThreads);
      if Scale(k, full) + rest > 0 {
        NotMultiple(|s|, d, m, Scale(k, full) + rest);
      }
    }
  }

  // ----- a column that reads past the array

  lemma {:induction false} AllButFirst(x: seq<int>, cfld: seq<int>, n: nat)
    requires n <= |x| == |cfld| && forall i :: 0 <= i < n ==> (cfld[i] == 0 <==> i == 0)
    ensures |Selected(x, cfld, n)| == if n == 0 then 0 else n - 1
  {
    if n > 0 { AllButFirst(x, cfld, n - 1); }
  }

  lemma EightBuffers(siz: nat, eps: real, b: nat)
    requires siz == 1280000 && eps == 0.0005 && IsChoice(eps, siz, b)
    ensures b == 8 && BufferSize(siz, b) == 10000
  {
    assert Pow2(2) == 4 && Pow2(4) == 16 && Pow2(6) == 64 && Pow2(7) == 128;
    SlackClosed(8);
    SlackClosed(9);
    if b >= 9 { SlackMonotone(9, b); }
    if b <= 7 { SlackMonotone(b + 1, 8); }
  }

  /**
   1280001 rows with all but the first selected, eps = 0.0005: eight buffers
   of 10000, blocks of 128 packets, and the one block is full when the column
   ends on a selected row.  Every such call reads past the array.
   */
  lemma OverrunExample(x: seq<int>, cfld: seq<int>)
    requires |x| == |cfld| == 1280001 && forall i :: 0 <= i < |x| ==> (cfld[i] == 0 <==> i == 0)
    ensures var s := Selected(x, cfld, |x|);
            && |s| == 1280000
            && forall b: nat, numThreads: nat |
                 IsChoice(0.0005, |s|, b) && ThreadsFit(b, BufferSize(|s|, b), numThreads) ::
                 Overruns(s, Scale(BufferSize(|s|, b), numThreads), cfld[|x| - 1])
  {
    AllButFirst(x, cfld, |x|);
    var s := Selected(x, cfld, |x|);
    forall b: nat, numThreads: nat | IsChoice(0.0005, |s|, b) && ThreadsFit(b, BufferSize(|s|, b), numThreads)
      ensures Overruns(s, Scale(BufferSize(|s|, b), numThreads), cfld[|x| - 1])
    {
      EightBuffers(|s|, 0.0005, b);
      var k, d := 10000, Scale(10000, numThreads);
      ScaleIsProduct(k, numThreads);
      assert numThreads == 128;
      ScaleIsProduct(d, 1);
      var m: nat := 1;
      assert |s| == Scale(d, m);
    }
  }

  /** A block absorbed moves the progress to the position it reached. */
  lemma BlockProgress(consumed: seq<int>, pk: seq<seq<int>>, used: seq<nat>, last: seq<int>, s: seq<int>, c: nat,
                      n: nat, k: nat,
                      full: nat, done: bool)
    requires Block(pk, used, last, s, c, k, full) && n == Start(c, k, full) + |last|
    requires SameCounts(consumed, s[..Start(c, k, full)])
    requires !done ==> last == []
    requires done ==> n == |s|
    ensures Progress(consumed, last, s, n, k, done)
  {}

  /** Loading the block after `m` whole ones. */
  method LoadStep(x: array<int>, cfld: array?<int>, masked: bool, siz: nat, loc0: nat, k: nat, numThreads: nat,
                  ghost cs: seq<int>, ghost s: seq<int>, ghost c: nat, ghost m: nat)
    returns (packets: seq<seq<int>>, used: seq<nat>, last: seq<int>, loc: nat, overrun: bool, ghost full: nat,
        ghost n: nat)
    requires k > 0 && loc0 < siz <= x.Length && numThreads > 0 && (masked ==> cfld != null && siz <= cfld.Length)
    requires cs == (if masked then cfld[..] else []) && s == Seen(x[..], cs, masked, siz)
    requires c == |Seen(x[..], cs, masked, loc0)| == Scale(Scale(k, numThreads), m)
    ensures Block(packets, used, last, s, c, k, full)
    ensures loc0 < loc <= siz && n == |Seen(x[..], cs, masked, loc)| == Start(c, k, full) + |last|
    ensures loc < siz ==> n == Scale(Scale(k, numThreads), m + 1) && last == [] && !overrun
    ensures loc == siz ==> (overrun <==> masked && Overruns(s, Scale(k, numThreads), cs[siz - 1]))
  {
    packets, used, last, loc, overrun, full := LoadBlock(x, cfld, masked, siz, loc0, k, numThreads);
    n := |Seen(x[..], cs, masked, loc)|;
    if loc == siz && masked {
      OverrunDecided(s, k, numThreads, m, full, |last|, cs[siz - 1]);
    }
  }

  /** Where the main loop stands at row `loc`: `m` whole blocks are absorbed, or everything is. */
  ghost predicate Standing(consumed: seq<int>, last: seq<int>, s: seq<int>, n: nat, k: nat, numThreads: nat, m: nat,
                           done: bool) {
    && Progress(consumed, last, s, n, k, done)
    && (!done ==> n == Scale(Scale(k, numThreads), m) && last == [])
  }

  lemma StandingStart(s: seq<int>, k: nat, numThreads: nat)
    requires k > 0
    ensures Standing([], [], s, 0, k, numThreads, 0, false)
  {}

  lemma SeenNothing(xs: seq<int>, cs: seq<int>, masked: bool)
    ensures |Seen(xs, cs, masked, 0)| == 0
  {}

  /** The word behind the array is taken for the size of a packet that is neither empty nor full, and copied from. */
  predicate Wild(overrun: bool, beyond: int, k: nat) {
    overrun && beyond != 0 && beyond != k
  }

  /** One turn of the main loop; `m` whole blocks came before it. */
  method ConsumeBlock(sk: Sketch, x: array<int>, cfld: array?<int>, masked: bool, siz: nat, loc0: nat, numThreads: nat,
                      beyond: int, ghost cs: seq<int>, ghost s: seq<int>, ghost c: nat, ghost m: nat)
    returns (last: seq<int>, loc: nat, overrun: bool, ghost n: nat)
    requires sk.Valid() && sk.k > 0 && loc0 < siz <= x.Length && numThreads > 0
    requires masked ==> cfld != null && siz <= cfld.Length
    requires x != sk.weight && x !in sk.buffer && (masked ==> cfld != sk.weight && cfld !in sk.buffer)
    requires cs == (if masked then cfld[..] else []) && s == Seen(x[..], cs, masked, siz)
    requires |s| <= Scale(sk.k, Pow2(sk.b - 1)) && |s| <= sk.k * INT_MAX
    requires c == |Seen(x[..], cs, masked, loc0)| == Scale(Scale(sk.k, numThreads), m)
    requires Progress(sk.consumed, [], s, c, sk.k, false)
    modifies sk, sk.weight, sk.buffer
    ensures loc0 < loc <= siz && n == |Seen(old(x[..]), cs, masked, loc)|
    ensures if loc < siz then !overrun else overrun == (masked && Overruns(s, Scale(sk.k, numThreads), cs[siz - 1]))
    ensures !Wild(overrun, beyond, sk.k) ==>
              sk.Valid() && Standing(sk.consumed, last, s, n, sk.k, numThreads, m + 1, loc == siz)
  {
    var packets, used;
    ghost var full;
    packets, used, last, loc, overrun, full, n := LoadStep(x, cfld, masked, siz, loc0, sk.k, numThreads, cs, s, c, m);
    if Wild(overrun, beyond, sk.k) { return; }
    AbsorbBlock(sk, packets, used, last, s, c, full);
    BlockProgress(sk.consumed, packets, used, last, s, c, n, sk.k, full, loc == siz);
  }

  /** The main loop: blocks are loaded and absorbed until the column ends. */
  method Consume(sk: Sketch, x: array<int>, cfld: array?<int>, masked: bool, siz: nat, numThreads: nat,
                 beyond: int, ghost cs: seq<int>, ghost s: seq<int>)
    returns (last: seq<int>, overrun: bool)
    requires sk.Valid() && sk.k > 0 && sk.consumed == [] && 0 < siz <= x.Length && numThreads > 0
    requires masked ==> cfld != null && siz <= cfld.Length
    requires x != sk.weight && x !in sk.buffer && (masked ==> cfld != sk.weight && cfld !in sk.buffer)
    requires cs == (if masked then cfld[..] else []) && s == Seen(x[..], cs, masked, siz)
    requires |s| <= Scale(sk.k, Pow2(sk.b - 1)) && |s| <= sk.k * INT_MAX
    modifies sk, sk.weight, sk.buffer
    ensures overrun <==> masked && Overruns(s, Scale(sk.k, numThreads), cs[siz - 1])
    ensures !Wild(overrun, beyond, sk.k) ==> sk.Valid() && Progress(sk.consumed, last, s, |s|, sk.k, true)
  {
    ghost var xs, m, n := x[..], 0, 0;
    ghost var past := masked && Overruns(s, Scale(sk.k, numThreads), cs[siz - 1]);
    var loc := 0;
    last, overrun := [], false;
    StandingStart(s, sk.k, numThreads);
    SeenNothing(xs, cs, masked);
    while loc < siz
      invariant loc <= siz && x[..] == xs && (masked ==> cfld[..] == cs)
      invariant n == |Seen(xs, cs, masked, loc)|
      invariant if loc < siz then !overrun else overrun == past
      invariant !Wild(overrun, beyond, sk.k) ==>
                  sk.Valid() && Standing(sk.consumed, last, s, n, sk.k, numThreads, m, loc == siz)
      decreases siz - loc
    {
      last, loc, overrun, n := ConsumeBlock(sk, x, cfld, masked, siz, loc, numThreads, beyond, cs, s, n, m);
      m := m + 1;
    }
  }

  // ----- the guarantee

  /** The final effective content counts like the input itself, up to the one-sided slack. */
  lemma RunAccurate(bufs: seq<seq<int>>, ws: seq<int>, level: seq<nat>, source: seq<seq<int>>, k: nat,
                    consumed: seq<int>,
                    last: seq<int>, s: seq<int>, v: int)
    requires k > 0 && |ws| >= 1 && Tracks(bufs, ws, level, source, k, consumed)
    requires Progress(consumed, last, s, |s|, k, true) && |s| <= Scale(k, Pow2(|ws| - 1))
    ensures CountLE(s, v) <= CountLE(PoolAll(bufs, ws) + Sort(last), v) <= CountLE(s, v) + Slack(|ws|)
  {
    RoomLeft(bufs, ws, level, source, k, consumed, Pow2(|ws| - 1));
    SketchAccurate(bufs, ws, level, source, k, consumed, v);
    WholeCount(consumed, last, s, k, v);
    PacketCount(PoolAll(bufs, ws), last, v);
  }

  lemma PacketCount(pool: seq<int>, last: seq<int>, v: int)
    ensures CountLE(pool + Sort(last), v) == CountLE(pool, v) + CountLE(last, v)
  {
    CountConcat(pool, Sort(last), v);
    SortFacts(last);
  }

  lemma WholeCount(consumed: seq<int>, last: seq<int>, s: seq<int>, k: nat, v: int)
    requires Progress(consumed, last, s, |s|, k, true)
    ensures |consumed| <= |s| && CountLE(s, v) == CountLE(consumed, v) + CountLE(last, v)
  {
    var n := |s| - |last|;
    CountSplit(s, n, v);
    assert s[n..] == s[n..|s|] == last;
  }

  /**
   `y` answers the share `r` of `n` times `s`: `n` times the number of elements
   below `y` falls short of it, and does not with those equal to `y` and
   `slack` more.
   */
  ghost predicate Near(s: seq<int>, r: int, n: nat, y: int, slack: nat) {
    n * CountLE(s, y - 1) < r <= n * (CountLE(s, y) + slack)
  }

  /** What a successful run reports in every slot. */
  ghost predicate Approximates(y: seq<int>, was: seq<int>, s: seq<int>, n: nat, slack: nat)
    requires 0 < n <= |y| == |was|
  {
    forall j :: 0 <= j < n ==>
      SlotApproximates(y[j], was[j], s, (j + 1) * |s|, n, slack)
  }

  /** Unanswered slots are those whose share exceeds the elements below INT_MAX, within the slack. */
  ghost predicate SlotApproximates(y: int, was: int, s: seq<int>, r: int, n: nat, slack: nat) {
    && (r <= n * CountLE(s, INT_MAX - 1) ==> Near(s, r, n, y, slack))
    && (r > n * (CountLE(s, INT_MAX - 1) + slack) ==> y == was)
    && (Near(s, r, n, y, slack) || y == was)
  }

  lemma CountsWithin(n: nat, a: int, b: int, slack: nat)
    requires a <= b <= a + slack
    ensures n * a <= n * b <= n * (a + slack)
  {
    MulMonotone(n, a, b);
    MulMonotone(n, b, a + slack);
  }

  lemma AnswerIsNear(total: seq<int>, s: seq<int>, r: int, n: nat, y: int, was: int, slack: nat)
    requires forall v :: CountLE(s, v) <= CountLE(total, v) <= CountLE(s, v) + slack
    requires SlotAnswers(y, was, total, r, n)
    ensures SlotApproximates(y, was, s, r, n, slack)
  {
    CountsWithin(n, CountLE(s, INT_MAX - 1), CountLE(total, INT_MAX - 1), slack);
    CountsWithin(n, CountLE(s, y - 1), CountLE(total, y - 1), slack);
    CountsWithin(n, CountLE(s, y), CountLE(total, y), slack);
  }

  lemma AnswersApproximate(y: seq<int>, was: seq<int>, total: seq<int>, s: seq<int>, n: nat, slack: nat)
    requires 0 < n <= |y| == |was| && Answers(y, was, total, |s|, n)
    requires forall v :: CountLE(s, v) <= CountLE(total, v) <= CountLE(s, v) + slack
    ensures Approximates(y, was, s, n, slack)
  {
    forall j | 0 <= j < n ensures SlotApproximates(y[j], was[j], s, (j + 1) * |s|, n, slack) {
      AnswerIsNear(total, s, (j + 1) * |s|, n, y[j], was[j], slack);
    }
  }

  /** The last packet is sorted and the queries are answered. */
  method Finish(sk: Sketch, last: seq<int>, effSiz: nat, numQuantiles: nat, y: array<int>, ghost s: seq<int>)
    returns (status: int)
    requires sk.Valid() && sk.k > 0 && Progress(sk.consumed, last, s, |s|, sk.k, true)
    requires effSiz == |s| && 0 < |s| <= Scale(sk.k, Pow2(sk.b - 1)) && 0 < numQuantiles <= y.Length
    requires y != sk.weight && y !in sk.buffer
    modifies y
    ensures status == 0 && Approximates(y[..], old(y[..]), s, numQuantiles, Slack(sk.b))
  {
    ghost var total := PoolAll(sk.bufs, sk.ws) + Sort(last);
    forall v ensures CountLE(s, v) <= CountLE(total, v) <= CountLE(s, v) + Slack(sk.b) {
      RunAccurate(sk.bufs, sk.ws, sk.level, sk.source, sk.k, sk.consumed, last, s, v);
    }
    SlotsSorted(sk.bufs, sk.ws, sk.level, sk.source, sk.k, sk.consumed);
    SortFacts(last);
    var lastPacket := Sort(last);
    var lastIncomplete := if last == [] then 0 else 1;
    assert LastContent(lastPacket, lastIncomplete, |last|) == lastPacket;
    status := Output(sk.buffer, sk.weight, lastPacket, lastIncomplete, |last|, effSiz, numQuantiles, y, sk.k, sk.bufs);
    AnswersApproximate(y[..], old(y[..]), total, s, numQuantiles, Slack(sk.b));
  }

  /** The column after input checking: sketch it, then answer. */
  method Run(x: array<int>, cfld: array?<int>, masked: bool, siz: nat, effSiz: nat, b: nat, k: nat, numThreads: nat,
             numQuantiles: nat, y: array<int>, beyond: int, ghost cs: seq<int>, ghost s: seq<int>)
    returns (status: int, overrun: bool)
    requires b >= 1 && k > 0 && 0 < siz <= x.Length && numThreads > 0 && 0 < numQuantiles <= y.Length
    requires masked ==> cfld != null && siz <= cfld.Length
    requires y != x && y != cfld
    requires cs == (if masked then cfld[..] else []) && s == Seen(x[..], cs, masked, siz)
    requires effSiz == |s| && 0 < |s| <= Scale(k, Pow2(b - 1)) && |s| <= k * INT_MAX
    modifies y
    ensures !Wild(overrun, beyond, k) ==> status == 0 && Approximates(y[..], old(y[..]), s, numQuantiles, Slack(b))
    ensures overrun <==> masked && Overruns(s, Scale(k, numThreads), cs[siz - 1])
  {
    var sk := new Sketch(b, k);
    var last;
    last, overrun := Consume(sk, x, cfld, masked, siz, numThreads, beyond, cs, s);
    status := 0;
    if Wild(overrun, beyond, k) { return; }
    status := Finish(sk, last, effSiz, numQuantiles, y, s);
  }

  /** The inputs approx_quantile turns away. */
  ghost predicate Rejected(x: array?<int>, cfld: array?<int>, siz: int, numQuantiles: int, eps: real, y: array?<int>,
                           ySiz: int)
    requires x != null ==> siz <= x.Length
    requires cfld != null ==> siz <= cfld.Length
    reads x, cfld
  {
    || x == null || y == null || eps < 0.0 || eps > 1.0 || numQuantiles < 1 || siz <= 0 || ySiz < numQuantiles
    || Chosen(x, cfld, siz) == []
  }

  /**
   approx_quantile.c: `isGood` is -1 on bad input, -2 when the buffers would
   not fit in memory, 1 otherwise.  A run may read the word `beyond` the end of
   inputPacketsUsedSiz (`overrun`); nothing is promised of its answers if that
   word is neither 0 nor k, and nothing of a run over more than INT_MAX whole
   packets, whose weights need not fit an int (`fits`).
   */
  method ApproxQuantile(x: array?<int>, cfld: array?<int>, siz: int, numQuantiles: int, eps: real, y: array?<int>,
                        ySiz: int, beyond: int)
    returns (status: int, isGood: int, fits: bool, overrun: bool, b: nat, numThreads: nat)
    requires x != null ==> siz <= x.Length
    requires cfld != null ==> siz <= cfld.Length
    requires y != null ==> ySiz <= y.Length && y != x && y != cfld
    modifies y
    ensures Rejected(x, cfld, siz, numQuantiles, eps, y, ySiz) <==> isGood == -1
    ensures isGood != 1 ==> status == if isGood == -1 then -1 else 0
    ensures isGood != -1 ==> IsChoice(eps, |old(Chosen(x, cfld, siz))|, b)
    ensures isGood != -1 ==> (isGood == -2 <==> (b + 1 + 10) * BufferSize(|old(Chosen(x, cfld, siz))|, b) > MAX_SZ)
    ensures isGood == 1 || isGood == -1 || isGood == -2
    ensures isGood != 1 ==> fits && (y != null ==> y[..] == old(y[..]))
    ensures isGood == 1 ==>
      var s := old(Chosen(x, cfld, siz));
      && (fits && (overrun ==> beyond == 0 || beyond == BufferSize(|s|, b)) ==>
          status == 0 && Approximates(y[..], old(y[..]), s, numQuantiles, Slack(b)))
      && ThreadsFit(b, BufferSize(|s|, b), numThreads)
      && (fits <==> |s| <= BufferSize(|s|, b) * INT_MAX)
      && (fits ==> (overrun <==>
          cfld != null && |s| != siz && Overruns(s, Scale(BufferSize(|s|, b), numThreads), old(cfld[siz - 1]))))
  {
    status, isGood, fits, overrun, b, numThreads := -1, -1, true, false, 1, 0;
    if x == null || y == null { return; }
    if eps < 0.0 || eps > 1.0 || numQuantiles < 1 || siz <= 0 || ySiz < numQuantiles { return; }
    var effSiz := siz;
    if cfld != null {
      effSiz := CountSelected(x, cfld, siz);
      if effSiz == 0 { return; }
    }
    ghost var s := Chosen(x, cfld, siz);
    var k;
    b, k := DetermineBK(eps, effSiz);
    if (b + 1 + 10) * k > MAX_SZ {
      return 0, -2, true, false, b, 0;
    }
    numThreads := ChooseThreads(b, k);
    isGood, fits := 1, effSiz <= k * INT_MAX;
    if !fits { return; }
    var masked := cfld != null && effSiz != siz;
    if cfld != null && !masked {
      SelectedAll(x[..], cfld[..], siz);
    }
    ghost var cs := if masked then cfld[..] else [];
    assert x[..][..siz] == x[..siz];
    status, overrun := Run(x, cfld, masked, siz, effSiz, b, k, numThreads, numQuantiles, y, beyond, cs, s);
  }

  /** The documented promise: each quantile is answered to within `eps` of the data size, from one side only. */
  lemma WithinEps(s: seq<int>, r: int, n: nat, y: int, eps: real, b: nat)
    requires 0.0 <= eps && IsChoice(eps, |s|, b) && n > 0 && Near(s, r, n, y, Slack(b))
    ensures n * CountLE(s, y - 1) < r
    ensures r as real / n as real <= CountLE(s, y) as real + eps * |s| as real
    ensures b >= 2 ==> r as real / n as real < CountLE(s, y) as real + eps * |s| as real
    ensures b == 1 ==> r <= n * CountLE(s, y)
  {
    SlackWithinError(eps, |s|, b);
    NonNegativeError(eps, |s|);
    RealQuotient(r, n, CountLE(s, y) + Slack(b));
  }

  lemma RealQuotient(r: int, n: nat, m: nat)
    requires n > 0 && r <= n * m
    ensures r as real / n as real <= m as real
  {
    assert r as real <= n as real * m as real;
  }

  lemma NonNegativeError(eps: real, n: nat)
    requires 0.0 <= eps
    ensures 0.0 <= eps * n as real
  {}

  /** With fewer than two buffers' worth of error allowed, the answer is the exact order statistic of rank `q`. */
  lemma ExactWithOneBuffer(s: seq<int>, j: nat, n: nat, q: nat, y: int)
    requires 1 <= q <= |s| && n * (q - 1) < (j + 1) * |s| <= n * q
    requires Near(s, (j + 1) * |s|, n, y, Slack(1))
    ensures |Sort(s)| == |s| && y == Sort(s)[q - 1]
  {
    Ceiling(n, (j + 1) * |s|, q, CountLE(s, y - 1));
    Ceiling(n, (j + 1) * |s|, q, CountLE(s, y));
    RankCharacterised(s, q, y);
  }

  /** Every slot is written, and near its rank, when no selected value is INT_MAX. */
  lemma AllAnswered(y: seq<int>, was: seq<int>, s: seq<int>, n: nat, slack: nat)
    requires 0 < n <= |y| == |was| && s != [] && Approximates(y, was, s, n, slack)
    requires forall i :: 0 <= i < |s| ==> s[i] < INT_MAX
    ensures forall j :: 0 <= j < n ==> Near(s, (j + 1) * |s|, n, y[j], slack)
  {
    AllCounted(s, INT_MAX - 1);
    forall j | 0 <= j < n ensures Near(s, (j + 1) * |s|, n, y[j], slack) {
      MulMonotone(|s|, j + 1, n);
      assert SlotApproximates(y[j], was[j], s, (j + 1) * |s|, n, slack);
    }
  }

  /**
   INT_MAX is never answered: a single-packet run over a column that holds it
   leaves the last slot as it was.
   */
  lemma MaxValueUnanswered(y: seq<int>, was: seq<int>, s: seq<int>, n: nat)
    requires 0 < n <= |y| == |was| && s != [] && Approximates(y, was, s, n, Slack(1))
    requires INT_MAX in s
    ensures y[n - 1] == was[n - 1]
  {
    FewerBelowMax(s);
    var j: nat := n - 1;
    MulMonotone(n, CountLE(s, INT_MAX - 1), |s| - 1);
    assert SlotApproximates(y[j], was[j], s, (j + 1) * |s|, n, Slack(1));
  }

  lemma FewerBelowMax(s: seq<int>)
    requires INT_MAX in s
    ensures CountLE(s, INT_MAX - 1) < |s|
  {
    var i :| 0 <= i < |s| && s[i] == INT_MAX;
    CountSplit(s, i, INT_MAX - 1);
    CountBounded(s[..i], INT_MAX - 1);
    assert s[i..] == [s[i]] + s[i+1..];
    CountConcat([s[i]], s[i+1..], INT_MAX - 1);
    CountBounded(s[i+1..], INT_MAX - 1);
    NoneCounted([s[i]], INT_MAX - 1);
  }
}
