/**
 The buffer store of the Munro-Paterson sketch and its packet step
 (q-base/src/approx_quantile.c:471-517, q-base/src/New.c).
 */
module QuantileSketch {
  import opened Ranks
  import opened Sums
  import opened BufferParams
  import BufferCollapse
  import opened QuantileOutput

  // ----- powers of two and the pigeonhole behind the collapse schedule

  lemma Pow2Strict(m: nat, n: nat)
    requires m < n
    ensures Pow2(m) < Pow2(n)
  {
    Pow2Monotone(m + 1, n);
  }

  lemma Pow2Injective(m: nat, n: nat)
    requires Pow2(m) == Pow2(n)
    ensures m == n
  {
    if m < n { Pow2Strict(m, n); } else if n < m { Pow2Strict(n, m); }
  }

  lemma Pow2Order(m: nat, n: nat)
    requires Pow2(m) < Pow2(n)
    ensures m < n
  {
    if n <= m { Pow2Monotone(n, m); }
  }

  ghost function Elements(s: seq<nat>): set<nat> {
    set x | x in s
  }

  lemma {:induction false} DistinctCardinality(s: seq<nat>)
    requires forall i, j :: 0 <= i < j < |s| ==> s[i] != s[j]
    ensures |Elements(s)| == |s|
  {
    if s != [] {
      var t, x := s[..|s|-1], s[|s|-1];
      DistinctCardinality(t);
      forall i | 0 <= i < |t| ensures t[i] != x { assert t[i] == s[i]; }
      assert x !in Elements(t);
      assert Elements(s) == Elements(t) + {x};
    }
  }

  lemma {:induction false} BoundedCardinality(s: set<nat>, n: nat)
    requires forall x :: x in s ==> x < n
    ensures |s| <= n
  {
    if n > 0 {
      BoundedCardinality(s - {n - 1}, n - 1);
    } else {
      assert s == {};
    }
  }

  /** More pigeons than holes: some two entries agree. */
  lemma Pigeonhole(s: seq<nat>, n: nat)
    requires |s| > n && forall i :: 0 <= i < |s| ==> s[i] < n
    ensures exists i, j :: 0 <= i < j < |s| && s[i] == s[j]
  {
    if forall i, j :: 0 <= i < j < |s| ==> s[i] != s[j] {
      DistinctCardinality(s);
      BoundedCardinality(Elements(s), n);
    }
  }

  // ----- one buffer

  /** l * 2^(l-1): the over-count a buffer of weight 2^l can have accumulated. */
  ghost function MaxError(l: nat): nat {
    if l == 0 then 0 else MaxError(l - 1) + MaxError(l - 1) + Pow2(l - 1)
  }

  lemma {:induction false} MaxErrorClosed(l: nat)
    ensures 2 * MaxError(l) == Scale(Pow2(l), l)
    ensures l > 0 ==> MaxError(l) == l * Pow2(l - 1)
  {
    if l > 0 {
      MaxErrorClosed(l - 1);
      ScaleDouble(Pow2(l - 1), l);
      ScaleIsProduct(Pow2(l - 1), l);
    }
  }

  /**
   `buf` of weight 2^l stands for the `k * 2^l` input elements `src`: it is
   sorted, and for every `v` its effective count at `v` exceeds the true one by
   0 to l * 2^(l-1).
   */
  ghost predicate StandsFor(buf: seq<int>, w: int, l: nat, src: seq<int>, k: nat) {
    && w == Pow2(l)
    && |buf| == k && Sorted(buf)
    && |src| == Scale(k, w)
    && forall v {:trigger Close(buf, w, l, src, v)} :: Close(buf, w, l, src, v)
  }

  ghost predicate Close(buf: seq<int>, w: nat, l: nat, src: seq<int>, v: int) {
    CountLE(src, v) <= Scale(w, CountLE(buf, v)) <= CountLE(src, v) + MaxError(l)
  }

  /** A full sorted packet stands for itself, exactly. */
  lemma PacketStandsFor(packet: seq<int>, k: nat)
    requires |packet| == k && Sorted(packet)
    ensures StandsFor(packet, 1, 0, packet, k)
  {
    assert Scale(k, 1) == Scale(k, 0) + k;
    forall v: int ensures Close(packet, 1, 0, packet, v) { ScaleIsProduct(1, CountLE(packet, v)); }
  }

  /** Collapsing two buffers of weight 2^l gives one of weight 2^(l+1) for both their sources. */
  lemma CollapseStandsFor(out: seq<int>, b1: seq<int>, s1: seq<int>, b2: seq<int>, s2: seq<int>, w: nat, l: nat, k: nat)
    requires StandsFor(b1, w, l, s1, k) && StandsFor(b2, w, l, s2, k)
    requires BufferCollapse.Picks(out, b1, w, b2, w)
    ensures StandsFor(out, w + w, l + 1, s1 + s2, k)
  {
    BufferCollapse.PicksSorted(out, b1, w, b2, w);
    ScaleAdd(k, w, w);
    var w', l', src := w + w, l + 1, s1 + s2;
    forall v: int ensures Close(out, w', l', src, v) {
      assert Close(b1, w, l, s1, v) && Close(b2, w, l, s2, v);
      CountConcat(s1, s2, v);
      BufferCollapse.EqualCollapseError(out, b1, b2, w, v);
    }
  }

  // ----- all buffers

  ghost function SourceCounts(source: seq<seq<int>>, v: int): seq<int> {
    seq(|source|, i requires 0 <= i < |source| => CountLE(source[i], v))
  }

  ghost function PoolCounts(bufs: seq<seq<int>>, ws: seq<int>, v: int): seq<int>
    requires |bufs| == |ws|
  {
    seq(|bufs|, i requires 0 <= i < |bufs| => Scale(Effective(ws[i]), CountLE(bufs[i], v)))
  }

  lemma {:induction false} PoolAllCount(bufs: seq<seq<int>>, ws: seq<int>, v: int)
    requires |bufs| == |ws|
    ensures CountLE(PoolAll(bufs, ws), v) == Total(PoolCounts(bufs, ws, v))
  {
    if bufs != [] {
      var n := |bufs| - 1;
      PoolAllCount(bufs[..n], ws[..n], v);
      CountConcat(PoolAll(bufs[..n], ws[..n]), Expand(bufs[n], Effective(ws[n])), v);
      CountExpand(bufs[n], Effective(ws[n]), v);
      assert PoolCounts(bufs, ws, v)[..n] == PoolCounts(bufs[..n], ws[..n], v);
    }
  }

  /** Slot `i` is free and stands for nothing, or holds a buffer of a level that b buffers allow. */
  ghost predicate SlotOK(buf: seq<int>, w: int, l: nat, src: seq<int>, k: nat, b: nat) {
    if w == 0 then src == [] else StandsFor(buf, w, l, src, k) && (l == 0 || l + 2 <= b)
  }

  /** The invariant of every reachable sketch: its slots partition the packets consumed so far. */
  ghost predicate Tracks(bufs: seq<seq<int>>, ws: seq<int>, level: seq<nat>, source: seq<seq<int>>, k: nat,
                         consumed: seq<int>) {
    && |bufs| == |ws| == |level| == |source|
    && (forall i :: 0 <= i < |ws| ==> ws[i] >= 0)
    && AllSlots(bufs, ws, level, source, k)
    && |consumed| == Scale(k, Weight(ws))
    && (forall v {:trigger Accounted(source, consumed, v)} :: Accounted(source, consumed, v))
  }

  ghost predicate AllSlots(bufs: seq<seq<int>>, ws: seq<int>, level: seq<nat>, source: seq<seq<int>>, k: nat)
    requires |bufs| == |ws| == |level| == |source|
  {
    forall i {:trigger SlotAt(bufs, ws, level, source, k, i)} :: 0 <= i < |ws| ==>
      SlotAt(bufs, ws, level, source, k, i)
  }

  ghost predicate SlotAt(bufs: seq<seq<int>>, ws: seq<int>, level: seq<nat>, source: seq<seq<int>>, k: nat, i: int)
    requires |bufs| == |ws| == |level| == |source| && 0 <= i < |ws|
  {
    SlotOK(bufs[i], ws[i], level[i], source[i], k, |ws|)
  }

  /** The slots' sources hold as many elements up to `v` as were consumed. */
  ghost predicate Accounted(source: seq<seq<int>>, consumed: seq<int>, v: int) {
    Total(SourceCounts(source, v)) == CountLE(consumed, v)
  }

  ghost function Weight(ws: seq<int>): nat {
    if Total(ws) >= 0 then Total(ws) else 0
  }

  lemma {:induction false} TotalNonNegative(ws: seq<int>)
    requires forall i :: 0 <= i < |ws| ==> ws[i] >= 0
    ensures Total(ws) >= 0
  {
    if ws != [] { TotalNonNegative(ws[..|ws|-1]); }
  }

  lemma EmptyTracks(bufs: seq<seq<int>>, ws: seq<int>, level: seq<nat>, source: seq<seq<int>>, k: nat)
    requires |bufs| == |ws| == |level| == |source|
    requires forall i :: 0 <= i < |ws| ==> ws[i] == 0 && source[i] == []
    ensures Tracks(bufs, ws, level, source, k, [])
  {
    TotalZero(ws);
    forall v: int ensures Accounted(source, [], v) { TotalZero(SourceCounts(source, v)); }
  }

  /** New: a packet put in a free slot adds one to the weight and its elements to the consumed ones. */
  lemma NewTracks(bufs: seq<seq<int>>, ws: seq<int>, level: seq<nat>, source: seq<seq<int>>, k: nat, consumed: seq<int>,
                  m: nat, packet: seq<int>)
    requires Tracks(bufs, ws, level, source, k, consumed)
    requires m < |ws| && ws[m] == 0 && |packet| == k && Sorted(packet)
    ensures Tracks(bufs[m := packet], ws[m := 1], level[m := 0], source[m := packet], k, consumed + packet)
    ensures Total(ws[m := 1]) == Total(ws) + 1
  {
    PacketStandsFor(packet, k);
    TotalUpdate(ws, m, 1);
    TotalNonNegative(ws);
    var bufs', ws', level', source' := bufs[m := packet], ws[m := 1], level[m := 0], source[m := packet];
    assert SlotAt(bufs, ws, level, source, k, m);
    forall n | 0 <= n < |ws'| ensures SlotAt(bufs', ws', level', source', k, n) {
      if n != m { assert SlotAt(bufs, ws, level, source, k, n); }
    }
    forall v: int ensures Accounted(source', consumed + packet, v) {
      assert Accounted(source, consumed, v);
      SourceNew(source, m, packet, v);
      CountConcat(consumed, packet, v);
    }
  }

  lemma SourceNew(source: seq<seq<int>>, m: nat, packet: seq<int>, v: int)
    requires m < |source| && source[m] == []
    ensures Total(SourceCounts(source[m := packet], v)) == Total(SourceCounts(source, v)) + CountLE(packet, v)
  {
    assert SourceCounts(source[m := packet], v) == SourceCounts(source, v)[m := CountLE(packet, v)];
    TotalUpdate(SourceCounts(source, v), m, CountLE(packet, v));
  }

  /** The sources of two slots may be joined in one of them without changing what is tracked. */
  lemma SourceJoin(source: seq<seq<int>>, i: nat, j: nat, v: int)
    requires i < |source| && j < |source| && i != j
    ensures Total(SourceCounts(source[i := source[i] + source[j]][j := []], v)) == Total(SourceCounts(source, v))
  {
    var c := SourceCounts(source, v);
    CountConcat(source[i], source[j], v);
    assert SourceCounts(source[i := source[i] + source[j]][j := []], v) == c[i := c[i] + c[j]][j := 0];
    TotalUpdate(c, i, c[i] + c[j]);
    TotalUpdate(c[i := c[i] + c[j]], j, 0);
  }

  lemma CollapseTotals(ws: seq<int>, i: nat, j: nat)
    requires i < |ws| && j < |ws| && i != j
    requires ws[i] > 0 && ws[j] > 0
    ensures Total(ws[i := ws[i] + ws[j]][j := 0]) == Total(ws)
    ensures Zeros(ws[i := ws[i] + ws[j]][j := 0]) == Zeros(ws) + 1
  {
    TotalUpdate(ws, i, ws[i] + ws[j]);
    TotalUpdate(ws[i := ws[i] + ws[j]], j, 0);
    ZerosUpdate(ws, i, ws[i] + ws[j]);
    ZerosUpdate(ws[i := ws[i] + ws[j]], j, 0);
  }

  /** The level a collapse produces stays within what the total weight allows. */
  lemma CollapseLevel(ws: seq<int>, i: nat, j: nat, l: nat)
    requires forall n :: 0 <= n < |ws| ==> ws[n] >= 0
    requires i < |ws| && j < |ws| && i != j && ws[i] == ws[j] == Pow2(l)
    requires Total(ws) < Pow2(|ws| - 1)
    ensures l + 3 <= |ws|
  {
    TotalTwo(ws, i, j);
    assert Pow2(l + 1) == Pow2(l) + Pow2(l);
    Pow2Order(l + 1, |ws| - 1);
  }

  /** The slot that receives a collapse. */
  lemma CollapseSlot(out: seq<int>, w: nat, b1: seq<int>, l1: nat, s1: seq<int>, b2: seq<int>, l2: nat, s2: seq<int>,
                     k: nat, b: nat)
    requires w > 0 && l1 + 3 <= b
    requires StandsFor(b1, w, l1, s1, k) && StandsFor(b2, w, l2, s2, k)
    requires BufferCollapse.Picks(out, b1, w, b2, w)
    ensures SlotOK(out, w + w, l1 + 1, s1 + s2, k, b)
  {
    Pow2Injective(l1, l2);
    CollapseStandsFor(out, b1, s1, b2, s2, w, l1, k);
  }

  /** The slot at its place. */
  lemma CollapseSlotAt(bufs: seq<seq<int>>, ws: seq<int>, level: seq<nat>, source: seq<seq<int>>, k: nat,
                       i: nat, j: nat, bufs': seq<seq<int>>, ws': seq<int>, level': seq<nat>, source': seq<seq<int>>)
    requires |bufs| == |ws| == |level| == |source| == |bufs'| == |ws'| == |level'| == |source'|
    requires i < |ws| && j < |ws| && i != j && forall n :: 0 <= n < |ws| ==> ws[n] >= 0
    requires SlotAt(bufs, ws, level, source, k, i) && SlotAt(bufs, ws, level, source, k, j)
    requires ws[i] == ws[j] > 0 && Total(ws) < Pow2(|ws| - 1)
    requires ws'[i] == ws[i] + ws[j] && level'[i] == level[i] + 1 && source'[i] == source[i] + source[j]
    requires BufferCollapse.Picks(bufs'[i], bufs[i], ws[i], bufs[j], ws[j])
    ensures SlotAt(bufs', ws', level', source', k, i)
  {
    CollapseLevel(ws, i, j, level[i]);
    CollapseSlot(bufs'[i], ws[i], bufs[i], level[i], source[i], bufs[j], level[j], source[j], k, |ws|);
  }

  /** All slots, once slot `i` holds the collapse and slot `j` is free. */
  lemma CollapseSlots(bufs: seq<seq<int>>, ws: seq<int>, level: seq<nat>, source: seq<seq<int>>, k: nat, i: nat, j: nat,
                      bufs': seq<seq<int>>, ws': seq<int>, level': seq<nat>, source': seq<seq<int>>)
    requires |bufs| == |ws| == |level| == |source| == |bufs'| == |ws'| == |level'| == |source'| && i < |ws| && j < |ws|
    requires AllSlots(bufs, ws, level, source, k)
    requires SlotAt(bufs', ws', level', source', k, i) && ws'[j] == 0 && source'[j] == []
    requires forall n :: 0 <= n < |ws| && n != i && n != j ==>
        bufs'[n] == bufs[n] && ws'[n] == ws[n] && level'[n] == level[n] && source'[n] == source[n]
    ensures AllSlots(bufs', ws', level', source', k)
  {
    forall n | 0 <= n < |ws| ensures SlotAt(bufs', ws', level', source', k, n) {
      if n != i && n != j { assert SlotAt(bufs, ws, level, source, k, n); }
    }
  }

  /** Collapse: two slots of equal weight become one, and everything consumed stays tracked. */
  lemma CollapseTracks(bufs: seq<seq<int>>, ws: seq<int>, level: seq<nat>, source: seq<seq<int>>, k: nat,
                       consumed: seq<int>,
                       i: nat, j: nat, bufs': seq<seq<int>>, ws': seq<int>, level': seq<nat>, source': seq<seq<int>>)
    requires Tracks(bufs, ws, level, source, k, consumed)
    requires i < |ws| && j < |ws| && i != j && ws[i] == ws[j] > 0 && Total(ws) < Pow2(|ws| - 1)
    requires |bufs'| == |ws| && bufs' == bufs[i := bufs'[i]] && ws' == ws[i := ws[i] + ws[j]][j := 0]
    requires level' == level[i := level[i] + 1] && source' == source[i := source[i] + source[j]][j := []]
    requires BufferCollapse.Picks(bufs'[i], bufs[i], ws[i], bufs[j], ws[j])
    ensures Tracks(bufs', ws', level', source', k, consumed)
  {
    assert SlotAt(bufs, ws, level, source, k, i) && SlotAt(bufs, ws, level, source, k, j);
    CollapseSlotAt(bufs, ws, level, source, k, i, j, bufs', ws', level', source');
    CollapseSlots(bufs, ws, level, source, k, i, j, bufs', ws', level', source');
    CollapseTotals(ws, i, j);
    JoinAccounted(source, source', consumed, i, j);
  }

  lemma JoinAccounted(source: seq<seq<int>>, source': seq<seq<int>>, consumed: seq<int>, i: nat, j: nat)
    requires i < |source| && j < |source| && i != j && source' == source[i := source[i] + source[j]][j := []]
    requires forall v {:trigger Accounted(source, consumed, v)} :: Accounted(source, consumed, v)
    ensures forall v {:trigger Accounted(source', consumed, v)} :: Accounted(source', consumed, v)
  {
    forall v: int ensures Accounted(source', consumed, v) {
      assert Accounted(source, consumed, v);
      SourceJoin(source, i, j, v);
    }
  }

  lemma SlotsSorted(bufs: seq<seq<int>>, ws: seq<int>, level: seq<nat>, source: seq<seq<int>>, k: nat,
                    consumed: seq<int>)
    requires Tracks(bufs, ws, level, source, k, consumed)
    ensures AllSorted(bufs, ws)
  {
    forall i | 0 <= i < |bufs| && ws[i] > 0 ensures Sorted(bufs[i]) {
      assert SlotAt(bufs, ws, level, source, k, i);
    }
  }

  /** The whole effect of one collapse on the state. */
  lemma CollapseStep(bufs: seq<seq<int>>, ws: seq<int>, level: seq<nat>, source: seq<seq<int>>, k: nat,
                     consumed: seq<int>,
                     i: nat, j: nat, bufs': seq<seq<int>>, ws': seq<int>, level': seq<nat>, source': seq<seq<int>>)
    requires Tracks(bufs, ws, level, source, k, consumed)
    requires i < j < |ws| && ws[i] == ws[j] > 0 && Total(ws) < Pow2(|ws| - 1)
    requires |bufs'| == |ws| && bufs' == bufs[i := bufs'[i]] && ws' == ws[i := ws[i] + ws[j]][j := 0]
    requires level' == level[i := level[i] + 1] && source' == source[i := source[i] + source[j]][j := []]
    requires BufferCollapse.Picks(bufs'[i], bufs[i], ws[i], bufs[j], ws[j])
    ensures Tracks(bufs', ws', level', source', k, consumed)
    ensures Total(ws') == Total(ws) && Zeros(ws') == Zeros(ws) + 1
  {
    CollapseTracks(bufs, ws, level, source, k, consumed, i, j, bufs', ws', level', source');
    CollapseTotals(ws, i, j);
  }

  /** The whole effect of storing one packet. */
  lemma NewStep(bufs: seq<seq<int>>, ws: seq<int>, level: seq<nat>, source: seq<seq<int>>, k: nat, consumed: seq<int>,
                m: nat, packet: seq<int>, bufs': seq<seq<int>>, ws': seq<int>, level': seq<nat>,
                    source': seq<seq<int>>, consumed': seq<int>)
    requires Tracks(bufs, ws, level, source, k, consumed)
    requires m < |ws| && ws[m] == 0 && |packet| == k && Sorted(packet)
    requires bufs' == bufs[m := packet] && ws' == ws[m := 1] && level' == level[m := 0]
    requires source' == source[m := packet]
    requires consumed' == consumed + packet
    ensures Tracks(bufs', ws', level', source', k, consumed')
    ensures Total(ws') == Total(ws) + 1 && Zeros(ws') == Zeros(ws) - 1
  {
    NewTracks(bufs, ws, level, source, k, consumed, m, packet);
    ZerosUpdate(ws, m, 1);
  }

  /** When no slot is free and the weight is below 2^(b-1), two slots carry the same weight. */
  lemma EqualPairExists(bufs: seq<seq<int>>, ws: seq<int>, level: seq<nat>, source: seq<seq<int>>, k: nat,
                        consumed: seq<int>)
    requires Tracks(bufs, ws, level, source, k, consumed)
    requires |ws| >= 1 && Zeros(ws) == 0 && Total(ws) < Pow2(|ws| - 1)
    ensures exists i, j :: 0 <= i < j < |ws| && ws[i] == ws[j] && ws[i] > 0
  {
    ZerosNone(ws);
    forall i | 0 <= i < |ws| ensures level[i] < |ws| - 1 && ws[i] == Pow2(level[i]) {
      assert SlotAt(bufs, ws, level, source, k, i);
      TotalAtLeast(ws, i);
      Pow2Order(level[i], |ws| - 1);
    }
    Pigeonhole(level, |ws| - 1);
    var i, j :| 0 <= i < j < |level| && level[i] == level[j];
    assert ws[i] == ws[j] && ws[i] > 0;
  }

  // ----- the error of the whole sketch

  ghost function Errors(ws: seq<int>, level: seq<nat>): seq<int>
    requires |ws| == |level|
  {
    seq(|ws|, i requires 0 <= i < |ws| => if ws[i] > 0 then MaxError(level[i]) else 0)
  }

  ghost function Plus(s: seq<int>, t: seq<int>): seq<int>
    requires |s| == |t|
  {
    seq(|s|, i requires 0 <= i < |s| => s[i] + t[i])
  }

  lemma {:induction false} TotalPlus(s: seq<int>, t: seq<int>)
    requires |s| == |t|
    ensures Total(Plus(s, t)) == Total(s) + Total(t)
  {
    if s != [] {
      var n := |s| - 1;
      TotalPlus(s[..n], t[..n]);
      assert Plus(s, t)[..n] == Plus(s[..n], t[..n]);
    }
  }

  /** Twice a buffer's error is at most (b-2) times its weight. */
  lemma ErrorPerWeight(l: nat, b: nat)
    requires l == 0 || l + 2 <= b
    ensures 2 * MaxError(l) <= Scale(Pow2(l), if b < 2 then 0 else b - 2)
  {
    MaxErrorClosed(l);
    ScaleMonotone(Pow2(l), l, if b < 2 then 0 else b - 2);
  }

  /** Levels that `b` buffers allow, with their weights. */
  ghost predicate LevelsOK(ws: seq<int>, level: seq<nat>, b: nat) {
    |ws| == |level| && forall i :: 0 <= i < |ws| ==>
        ws[i] == 0 || (ws[i] == Pow2(level[i]) && (level[i] == 0 || level[i] + 2 <= b))
  }

  lemma {:induction false} ErrorsBounded(ws: seq<int>, level: seq<nat>, b: nat, c: nat)
    requires LevelsOK(ws, level, b) && c == if b < 2 then 0 else b - 2
    ensures Total(ws) >= 0 && 2 * Total(Errors(ws, level)) <= Scale(c, Total(ws))
  {
    if ws != [] {
      var n := |ws| - 1;
      ErrorsBounded(ws[..n], level[..n], b, c);
      assert Errors(ws, level)[..n] == Errors(ws[..n], level[..n]);
      OneError(ws[n], level[n], b, c);
      ScaleAdd(c, Total(ws[..n]), ws[n]);
    }
  }

  lemma OneError(w: int, l: nat, b: nat, c: nat)
    requires (w == 0 || (w == Pow2(l) && (l == 0 || l + 2 <= b))) && c == if b < 2 then 0 else b - 2
    ensures w >= 0 && 2 * (if w > 0 then MaxError(l) else 0) <= Scale(c, w)
  {
    if w > 0 {
      ErrorPerWeight(l, b);
      ScaleCommutes(w, c);
    }
  }

  lemma ScaleCommutes(m: nat, n: nat)
    ensures Scale(m, n) == Scale(n, m)
  {
    ScaleIsProduct(m, n);
    ScaleIsProduct(n, m);
  }

  lemma TracksLevels(bufs: seq<seq<int>>, ws: seq<int>, level: seq<nat>, source: seq<seq<int>>, k: nat,
                     consumed: seq<int>)
    requires Tracks(bufs, ws, level, source, k, consumed)
    ensures LevelsOK(ws, level, |ws|)
  {
    forall i | 0 <= i < |ws|
      ensures ws[i] == 0 || (ws[i] == Pow2(level[i]) && (level[i] == 0 || level[i] + 2 <= |ws|))
    {
      assert SlotAt(bufs, ws, level, source, k, i);
    }
  }

  lemma LevelsWithinSlack(ws: seq<int>, level: seq<nat>, b: nat)
    requires b == |ws| >= 1 && LevelsOK(ws, level, b) && Total(ws) <= Pow2(b - 1)
    ensures Total(Errors(ws, level)) <= Slack(b)
  {
    var c := if b < 2 then 0 else b - 2;
    ErrorsBounded(ws, level, b, c);
    ScaleMonotone(c, Total(ws), Pow2(b - 1));
    ScaleCommutes(c, Pow2(b - 1));
    if b >= 2 { ScaleDouble(Pow2(b - 2), c); }
  }

  /** The total over-count of a sketch of weight at most 2^(b-1) is at most (b-2) * 2^(b-2). */
  lemma ErrorsWithinSlack(bufs: seq<seq<int>>, ws: seq<int>, level: seq<nat>, source: seq<seq<int>>, k: nat,
                          consumed: seq<int>)
    requires Tracks(bufs, ws, level, source, k, consumed)
    requires |ws| >= 1 && Total(ws) <= Pow2(|ws| - 1)
    ensures Total(Errors(ws, level)) <= Slack(|ws|)
  {
    TracksLevels(bufs, ws, level, source, k, consumed);
    LevelsWithinSlack(ws, level, |ws|);
  }

  /** For every value the sketch's effective count exceeds the true one by at most the slack, and never falls short. */
  lemma SketchAccurate(bufs: seq<seq<int>>, ws: seq<int>, level: seq<nat>, source: seq<seq<int>>, k: nat,
                       consumed: seq<int>, v: int)
    requires Tracks(bufs, ws, level, source, k, consumed)
    requires |ws| >= 1 && Total(ws) <= Pow2(|ws| - 1)
    ensures CountLE(consumed, v) <= CountLE(PoolAll(bufs, ws), v) <= CountLE(consumed, v) + Slack(|ws|)
  {
    var p, s, e := PoolCounts(bufs, ws, v), SourceCounts(source, v), Errors(ws, level);
    PoolAllCount(bufs, ws, v);
    ErrorsWithinSlack(bufs, ws, level, source, k, consumed);
    assert Accounted(source, consumed, v);
    forall i | 0 <= i < |ws| ensures s[i] <= p[i] <= s[i] + e[i] {
      assert SlotAt(bufs, ws, level, source, k, i);
      SlotAccurate(bufs[i], ws[i], level[i], source[i], k, |ws|, v);
    }
    TotalOrder(s, p);
    TotalOrder(p, Plus(s, e));
    TotalPlus(s, e);
  }

  lemma SlotAccurate(buf: seq<int>, w: int, l: nat, src: seq<int>, k: nat, b: nat, v: int)
    requires w >= 0 && SlotOK(buf, w, l, src, k, b)
    ensures CountLE(src, v) <= Scale(w, CountLE(buf, v)) <= CountLE(src, v) + (if w > 0 then MaxError(l) else 0)
  {
    if w == 0 { ScaleZero(CountLE(buf, v)); } else { assert Close(buf, w, l, src, v); }
  }
}
