/**
 The mutable state of approx_quantile: `b` buffers with their weights, and the
 step that takes in one sorted packet (q-base/src/approx_quantile.c:471-517).
 */
module SketchState {
  import opened Arithmetic
  import opened Ranks
  import opened Sums
  import opened BufferParams
  import BufferCollapse
  import opened QuantileOutput
  import opened QuantileSketch

  /** New.c: copy a packet into a buffer and set its weight. */
  method New(src: seq<int>, dst: array<int>, weight: array<int>, initialWeight: int, bufidx: int, b: int, k: nat)
    returns (status: int)
    requires |src| == dst.Length == k && weight.Length == b && dst != weight
    modifies dst, weight
    ensures status == if 0 <= bufidx < b then 0 else -1
    ensures status == 0 ==> dst[..] == src && weight[..] == old(weight[..])[bufidx := initialWeight]
    ensures status != 0 ==> dst[..] == old(dst[..]) && weight[..] == old(weight[..])
  {
    if bufidx < 0 || bufidx >= b { return -1; }
    forall i | 0 <= i < k { dst[i] := src[i]; }
    assert dst[..] == src;
    weight[bufidx] := initialWeight;
    return 0;
  }

  /** The first pair of equal positive weights, or -1, -1. */
  method FindEqualPair(weight: array<int>) returns (bufidx1: int, bufidx2: int)
    ensures bufidx1 >= 0 ==> 0 <= bufidx1 < bufidx2 < weight.Length && weight[bufidx1] == weight[bufidx2] > 0
    ensures bufidx1 >= 0 ==>
      forall i, j | 0 <= i < j < weight.Length && (i < bufidx1 || (i == bufidx1 && j < bufidx2)) ::
        !(weight[i] == weight[j] && weight[i] > 0)
    ensures bufidx1 < 0 ==> forall i, j :: 0 <= i < j < weight.Length ==> !(weight[i] == weight[j] && weight[i] > 0)
  {
    bufidx1, bufidx2 := -1, -1;
    var b := weight.Length;
    var ii := 0;
    while ii < b - 1
      invariant 0 <= ii && bufidx1 == -1 && bufidx2 == -1
      invariant forall i, j :: 0 <= i < ii && i < j < b ==> !(weight[i] == weight[j] && weight[i] > 0)
    {
      for jj := ii + 1 to b
        invariant bufidx1 == -1 && bufidx2 == -1
        invariant forall j :: ii < j < jj ==> !(weight[ii] == weight[j] && weight[ii] > 0)
      {
        if weight[ii] == weight[jj] && weight[ii] > 0 {
          return ii, jj;
        }
      }
      ii := ii + 1;
    }
  }

  /** The first free buffer, or -1. */
  method FindFree(weight: array<int>) returns (bufidx: int)
    ensures bufidx >= 0 ==>
        bufidx < weight.Length && weight[bufidx] == 0 && forall i :: 0 <= i < bufidx ==> weight[i] != 0
    ensures bufidx < 0 ==> forall i :: 0 <= i < weight.Length ==> weight[i] != 0
  {
    for ii := 0 to weight.Length
      invariant forall i :: 0 <= i < ii ==> weight[i] != 0
    {
      if weight[ii] == 0 { return ii; }
    }
    return -1;
  }

  class Sketch {
    const b: nat
    const k: nat
    const buffer: seq<array<int>>
    const weight: array<int>
    var noOfEmptyBuffers: int

    ghost var bufs: seq<seq<int>>     // what the buffers hold
    ghost var ws: seq<int>            // and their weights
    ghost var level: seq<nat>         // weight[i] == 2^level[i] where positive
    ghost var source: seq<seq<int>>   // the input elements buffer i stands for
    ghost var consumed: seq<int>      // everything absorbed so far

    ghost predicate Laid()
      reads this, weight, buffer
    {
      && |buffer| == b == weight.Length && b >= 1 && |bufs| == |level| == |source| == b && weight[..] == ws
      && (forall i :: 0 <= i < b ==> buffer[i] != weight && buffer[i].Length == k && buffer[i][..] == bufs[i])
      && (forall i, j :: 0 <= i < j < b ==> buffer[i] != buffer[j])
    }

    /** Weights are zero or powers of two, the free count is exact, and the slots partition what was consumed. */
    ghost predicate Valid()
      reads this, weight, buffer
    {
      && Laid()
      && noOfEmptyBuffers == Zeros(ws)
      && Tracks(bufs, ws, level, source, k, consumed)
    }

    constructor (b: nat, k: nat)
      requires b >= 1
      ensures this.b == b && this.k == k && Valid() && consumed == [] && Total(ws) == 0
      ensures fresh(weight) && fresh(buffer)
    {
      this.b := b;
      this.k := k;
      var arrays := Allocate(b, k);
      var zeros := new int[b](_ => 0);
      this.buffer := arrays;
      this.weight := zeros;
      this.noOfEmptyBuffers := b;
      this.ws := seq(b, _ => 0);
      this.bufs := seq(b, _ => seq(k, _ => 0));
      this.level := seq(b, _ => 0);
      this.source := seq(b, _ => []);
      this.consumed := [];
      new;
      ZerosAll(ws);
      EmptyTracks(bufs, ws, level, source, k);
      TotalZero(ws);
    }

    /** With no buffer free and room left for one more packet, the search for equal weights succeeds. */
    method ChoosePair() returns (i: int, j: int)
      requires Valid() && noOfEmptyBuffers == 0 && Total(ws) < Pow2(b - 1)
      ensures 0 <= i < j < b && ws[i] == ws[j] > 0
    {
      EqualPairExists(bufs, ws, level, source, k, consumed);
      ghost var p, q :| 0 <= p < q < |ws| && ws[p] == ws[q] && ws[p] > 0;
      i, j := FindEqualPair(weight);
      assert weight[p] == weight[q];
    }

    /** What a collapse of `i` and `j` does to the fields. */
    method CollapseFields(i: nat, j: nat)
      requires Laid() && i < j < b && ws[i] > 0 && ws[j] > 0 && Sorted(bufs[i]) && Sorted(bufs[j])
      requires ws[i] + ws[j] <= INT_MAX
      modifies this, weight, buffer
      ensures Laid() && consumed == old(consumed) && noOfEmptyBuffers == old(noOfEmptyBuffers) + 1
      ensures ws == old(ws)[i := old(ws[i]) + old(ws[j])][j := 0]
      ensures level == old(level)[i := old(level[i]) + 1]
      ensures source == old(source)[i := old(source[i]) + old(source[j])][j := []]
      ensures bufs == old(bufs)[i := bufs[i]]
      ensures BufferCollapse.Picks(bufs[i], old(bufs[i]), old(ws[i]), old(bufs[j]), old(ws[j]))
    {
      level := level[i := level[i] + 1];
      source := source[i := source[i] + source[j]][j := []];
      noOfEmptyBuffers := noOfEmptyBuffers + 1;
      var status, defined := BufferCollapse.Collapse(buffer[i], buffer[j], weight, i, j, b, k);
      bufs, ws := bufs[i := buffer[i][..]], weight[..];
    }

    /** Collapse one pair of equal weights into the first of the two. */
    method CollapsePair(i: nat, j: nat)
      requires Valid() && i < j < b && ws[i] == ws[j] > 0 && Total(ws) < Pow2(b - 1) && Total(ws) <= INT_MAX
      modifies this, weight, buffer
      ensures Valid() && noOfEmptyBuffers == old(noOfEmptyBuffers) + 1
      ensures consumed == old(consumed) && Total(ws) == old(Total(ws))
    {
      SlotsSorted(bufs, ws, level, source, k, consumed);
      TotalTwo(ws, i, j);
      CollapseFields(i, j);
      CollapseStep(old(bufs), old(ws), old(level), old(source), k, consumed, i, j, bufs, ws, level, source);
    }

    /** What storing a packet in slot `i` does to the fields. */
    method StoreFields(i: nat, packet: seq<int>) returns (status: int)
      requires Laid() && i < b && |packet| == k
      modifies this, weight, buffer
      ensures Laid() && status == 0 && noOfEmptyBuffers == old(noOfEmptyBuffers) - 1
      ensures ws == old(ws)[i := 1] && bufs == old(bufs)[i := packet]
      ensures level == old(level)[i := 0] && source == old(source)[i := packet]
      ensures consumed == old(consumed) + packet
    {
      noOfEmptyBuffers := noOfEmptyBuffers - 1;
      level := level[i := 0];
      source := source[i := packet];
      consumed := consumed + packet;
      status := New(packet, buffer[i], weight, 1, i, b, k);
      bufs, ws := bufs[i := packet], weight[..];
    }

    /** Copy the packet into a free buffer. */
    method Store(packet: seq<int>) returns (status: int)
      requires Valid() && noOfEmptyBuffers > 0
      requires |packet| == k && Sorted(packet)
      modifies this, weight, buffer
      ensures Valid() && status == 0
      ensures consumed == old(consumed) + packet && Total(ws) == old(Total(ws)) + 1
    {
      ZerosNone(ws);
      var i := FindFree(weight);
      status := StoreFields(i, packet);
      NewStep(old(bufs), old(ws), old(level), old(source), k, old(consumed), i, packet, bufs, ws, level, source,
          consumed);
    }

    /** One packet: collapse if nothing is free, then store. Neither step ever receives index -1. */
    method Absorb(packet: seq<int>) returns (status: int)
      requires Valid() && Total(ws) < Pow2(b - 1) && Total(ws) <= INT_MAX
      requires |packet| == k && Sorted(packet)
      modifies this, weight, buffer
      ensures Valid() && status == 0
      ensures consumed == old(consumed) + packet && Total(ws) == old(Total(ws)) + 1
    {
      if noOfEmptyBuffers == 0 {
        var i, j := ChoosePair();
        CollapsePair(i, j);
      }
      status := Store(packet);
    }
  }

  method Allocate(n: nat, k: nat) returns (arrays: seq<array<int>>)
    ensures |arrays| == n
    ensures forall i :: 0 <= i < n ==> fresh(arrays[i]) && arrays[i].Length == k && arrays[i][..] == seq(k, _ => 0)
    ensures forall i, j :: 0 <= i < j < n ==> arrays[i] != arrays[j]
  {
    arrays := [];
    for i := 0 to n
      invariant |arrays| == i
      invariant forall j :: 0 <= j < i ==> fresh(arrays[j]) && arrays[j].Length == k && arrays[j][..] == seq(k, _ => 0)
      invariant forall j, l :: 0 <= j < l < i ==> arrays[j] != arrays[l]
    {
      var a := new int[k](_ => 0);
      arrays := arrays + [a];
    }
  }
}
