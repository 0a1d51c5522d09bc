/**
 Counting and ranks over integer sequences: the vocabulary in which the
 quantile sketch is specified.  An element's rank is its 1-based position in
 the sorted sequence; `CountLE` is the cumulative distribution that decides it.
 */
module Ranks {

  ghost predicate Sorted(s: seq<int>) {
    forall i, j :: 0 <= i < j < |s| ==> s[i] <= s[j]
  }

  /** The number of elements of `s` that are at most `v`. */
  function CountLE(s: seq<int>, v: int): nat {
    if s == [] then 0
    else CountLE(s[..|s|-1], v) + (if s[|s|-1] <= v then 1 else 0)
  }

  /** That is the number of places whose element is at most `v`. */
  lemma {:induction false} CountIs(s: seq<int>, v: int)
    ensures CountLE(s, v) == |set i | 0 <= i < |s| && s[i] <= v|
  {
    if s != [] {
      var n := |s| - 1;
      CountIs(s[..n], v);
      assert (set i | 0 <= i < |s| && s[i] <= v)
          == (set i | 0 <= i < n && s[..n][i] <= v) + if s[n] <= v then {n} else {};
    }
  }

  function Insert(s: seq<int>, x: int): seq<int> {
    if s == [] || s[|s|-1] <= x then s + [x]
    else Insert(s[..|s|-1], x) + [s[|s|-1]]
  }

  /** The ascending rearrangement of `s` (what `qsort_asc_I4` leaves behind). */
  function Sort(s: seq<int>): seq<int> {
    if s == [] then [] else Insert(Sort(s[..|s|-1]), s[|s|-1])
  }

  /** `w` copies of `x`. */
  function Repeat(x: int, w: nat): (r: seq<int>)
    ensures |r| == w
  {
    seq(w, _ => x)
  }

  /** Every element of `s` written out `w` times: the "effective" content of a buffer of weight `w`. */
  function Expand(s: seq<int>, w: nat): seq<int> {
    if s == [] then [] else Expand(s[..|s|-1], w) + Repeat(s[|s|-1], w)
  }

  /** The product `w * n`, by repeated addition. */
  function Scale(w: nat, n: nat): nat {
    if n == 0 then 0 else Scale(w, n - 1) + w
  }

  lemma {:induction false} ScaleIsProduct(w: nat, n: nat)
    ensures Scale(w, n) == w * n
  {
    if n > 0 { ScaleIsProduct(w, n - 1); }
  }

  lemma {:induction false} ScaleAdd(w: nat, m: nat, n: nat)
    ensures Scale(w, m + n) == Scale(w, m) + Scale(w, n)
  {
    if n > 0 { ScaleAdd(w, m, n - 1); }
  }

  lemma {:induction false} ScaleDouble(w: nat, n: nat)
    ensures Scale(w + w, n) == Scale(w, n) + Scale(w, n)
  {
    if n > 0 { ScaleDouble(w, n - 1); }
  }

  lemma {:induction false} ScaleMonotone(w: nat, m: nat, n: nat)
    requires m <= n
    ensures Scale(w, m) <= Scale(w, n)
  {
    if m < n { ScaleMonotone(w, m, n - 1); }
  }

  // ----- counting

  lemma CountAppend(s: seq<int>, x: int, v: int)
    ensures CountLE(s + [x], v) == CountLE(s, v) + (if x <= v then 1 else 0)
  {
    assert (s + [x])[..|s|] == s;
  }

  lemma {:induction false} CountConcat(s: seq<int>, t: seq<int>, v: int)
    ensures CountLE(s + t, v) == CountLE(s, v) + CountLE(t, v)
  {
    if t == [] {
      assert s + t == s;
    } else {
      var t' := t[..|t|-1];
      assert s + t == (s + t') + [t[|t|-1]];
      CountAppend(s + t', t[|t|-1], v);
      CountConcat(s, t', v);
    }
  }

  lemma CountSplit(s: seq<int>, n: nat, v: int)
    requires n <= |s|
    ensures CountLE(s, v) == CountLE(s[..n], v) + CountLE(s[n..], v)
  {
    assert s == s[..n] + s[n..];
    CountConcat(s[..n], s[n..], v);
  }

  lemma {:induction false} CountRepeat(x: int, w: nat, v: int)
    ensures CountLE(Repeat(x, w), v) == if x <= v then w else 0
  {
    if w > 0 {
      assert Repeat(x, w)[..w-1] == Repeat(x, w - 1);
      CountRepeat(x, w - 1, v);
    }
  }

  lemma {:induction false} CountBounded(s: seq<int>, v: int)
    ensures CountLE(s, v) <= |s|
  {
    if s != [] { CountBounded(s[..|s|-1], v); }
  }

  lemma {:induction false} CountMonotone(s: seq<int>, u: int, v: int)
    requires u <= v
    ensures CountLE(s, u) <= CountLE(s, v)
  {
    if s != [] { CountMonotone(s[..|s|-1], u, v); }
  }

  lemma {:induction false} CountExpand(s: seq<int>, w: nat, v: int)
    ensures |Expand(s, w)| == Scale(w, |s|)
    ensures CountLE(Expand(s, w), v) == Scale(w, CountLE(s, v))
  {
    if s != [] {
      var s' := s[..|s|-1];
      CountExpand(s', w, v);
      CountConcat(Expand(s', w), Repeat(s[|s|-1], w), v);
      CountRepeat(s[|s|-1], w, v);
    }
  }

  // ----- sorting

  lemma {:induction false} InsertFacts(s: seq<int>, x: int)
    requires Sorted(s)
    ensures Sorted(Insert(s, x))
    ensures |Insert(s, x)| == |s| + 1
    ensures forall v :: CountLE(Insert(s, x), v) == CountLE(s, v) + (if x <= v then 1 else 0)
    ensures forall y :: y in Insert(s, x) ==> y == x || y in s
  {
    if s == [] || s[|s|-1] <= x {
      forall v ensures CountLE(Insert(s, x), v) == CountLE(s, v) + (if x <= v then 1 else 0) {
        CountAppend(s, x, v);
      }
    } else {
      var s', z := s[..|s|-1], s[|s|-1];
      InsertFacts(s', x);
      forall v ensures CountLE(Insert(s, x), v) == CountLE(s, v) + (if x <= v then 1 else 0) {
        CountAppend(Insert(s', x), z, v);
      }
      var r := Insert(s', x);
      forall i | 0 <= i < |r| ensures r[i] <= z { assert r[i] in r; }
    }
  }

  lemma {:induction false} SortFacts(s: seq<int>)
    ensures Sorted(Sort(s)) && |Sort(s)| == |s|
    ensures forall v :: CountLE(Sort(s), v) == CountLE(s, v)
  {
    if s != [] {
      SortFacts(s[..|s|-1]);
      InsertFacts(Sort(s[..|s|-1]), s[|s|-1]);
    }
  }

  /** In a sorted sequence the elements at most `v` are exactly the first `CountLE(s, v)`. */
  lemma {:induction false} SortedThreshold(s: seq<int>, v: int, i: nat)
    requires Sorted(s) && i < |s|
    ensures s[i] <= v <==> i < CountLE(s, v)
  {
    var s' := s[..|s|-1];
    CountBounded(s', v);
    if i < |s'| {
      SortedThreshold(s', v, i);
      if s'[i] > v { assert s[|s|-1] > v; }
    } else if s[i] <= v {
      AllCounted(s', v);
    }
  }

  lemma {:induction false} AllCounted(s: seq<int>, v: int)
    requires forall i :: 0 <= i < |s| ==> s[i] <= v
    ensures CountLE(s, v) == |s|
  {
    if s != [] { AllCounted(s[..|s|-1], v); }
  }

  lemma {:induction false} NoneCounted(s: seq<int>, v: int)
    requires forall i :: 0 <= i < |s| ==> s[i] > v
    ensures CountLE(s, v) == 0
  {
    if s != [] { NoneCounted(s[..|s|-1], v); }
  }

  /** A sequence whose first `m` elements are exactly those at most `v` has count `m`. */
  lemma CountFromThreshold(s: seq<int>, v: int, m: nat)
    requires m <= |s|
    requires forall i :: 0 <= i < |s| ==> (s[i] <= v <==> i < m)
    ensures CountLE(s, v) == m
  {
    assert s == s[..m] + s[m..];
    CountConcat(s[..m], s[m..], v);
    AllCounted(s[..m], v);
    NoneCounted(s[m..], v);
  }

  /** The element of rank `q` of `e` is the one value at which the count first reaches `q`. */
  lemma RankCharacterised(e: seq<int>, q: int, y: int)
    requires 1 <= q <= |e|
    ensures |Sort(e)| == |e|
    ensures y == Sort(e)[q - 1] <==> CountLE(e, y - 1) < q <= CountLE(e, y)
  {
    SortFacts(e);
    SortedThreshold(Sort(e), y, q - 1);
    SortedThreshold(Sort(e), y - 1, q - 1);
  }

  /**
   A sorted `r` that agrees with `e` on every count below `limit`, and whose
   elements all lie below `limit`, is the beginning of the sorted `e`.
   */
  lemma SortedPrefix(r: seq<int>, e: seq<int>, limit: int)
    requires Sorted(r)
    requires forall i :: 0 <= i < |r| ==> r[i] < limit
    requires forall v :: v < limit ==> CountLE(r, v) == CountLE(e, v)
    ensures |r| == CountLE(e, limit - 1) <= |e| == |Sort(e)|
    ensures r == Sort(e)[..|r|]
  {
    SortFacts(e);
    AllCounted(r, limit - 1);
    CountBounded(e, limit - 1);
    forall i | 0 <= i < |r| ensures r[i] == Sort(e)[i] {
      SortedThreshold(r, r[i], i);
      SortedThreshold(r, r[i] - 1, i);
      RankCharacterised(e, i + 1, r[i]);
    }
  }

  /** A sorted sequence with the counts of `e` is the sorted `e`. */
  lemma SortUnique(r: seq<int>, e: seq<int>)
    requires Sorted(r) && |r| == |e|
    requires forall v :: CountLE(r, v) == CountLE(e, v)
    ensures r == Sort(e)
  {
    SortFacts(e);
    var t := Sort(e);
    forall i | 0 <= i < |r| ensures r[i] == t[i] {
      SameAt(r, t, i);
      SameAt(t, r, i);
    }
  }

  lemma SameAt(r: seq<int>, t: seq<int>, i: nat)
    requires Sorted(r) && Sorted(t) && i < |r| == |t|
    requires CountLE(r, r[i]) == CountLE(t, r[i])
    ensures t[i] <= r[i]
  {
    SortedThreshold(r, r[i], i);
    SortedThreshold(t, r[i], i);
  }
}
