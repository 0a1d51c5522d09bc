/**
 Membership of a sorted column in another through a directory of value and
 index ranges (q-base/src/dir_is_a_in_b.c), with the binary search it calls
 (qtils/src/AUX/bin_search_I8.c).
 */
module DirSearch {

  datatype Dir = Dir(lbVal: seq<int>, ubVal: seq<int>, lbIdx: seq<int>, ubIdx: seq<int>)

  ghost predicate Ascending(s: seq<int>) {
    forall i, j :: 0 <= i < j < |s| ==> s[i] <= s[j]
  }

  /** bin_search_I8 on the range of `x` from `lo`, any match; an empty range is an error. */
  method BinSearch(x: seq<int>, lo: int, n: int, key: int) returns (status: int, pos: int)
    requires n > 0 ==> 0 <= lo && lo + n <= |x| && Ascending(x[lo..lo+n])
    ensures status == if n <= 0 then -1 else 0
    ensures status == 0 && pos >= 0 ==> pos < n && x[lo + pos] == key
    ensures status == 0 && pos < 0 ==> key !in x[lo..lo+n]
  {
    status, pos := 0, -1;
    if n <= 0 { return -1, -1; }
    ghost var range := x[lo..lo+n];
    if n == 1 {
      if x[lo] == key { pos := 0; } else { assert range == [x[lo]]; }
      return;
    }
    var lb, ub := 0, n - 1;
    while lb <= ub
      invariant 0 <= lb && ub < n && pos == -1
      invariant forall k :: 0 <= k < n && range[k] == key ==> lb <= k <= ub
      decreases ub - lb
    {
      var mid := (lb + ub) / 2;
      assert range[mid] == x[lo + mid];
      if x[lo + mid] == key {
        return 0, mid;
      } else if key < x[lo + mid] {
        ub := if ub - 1 < mid then ub - 1 else mid;
      } else {
        lb := if lb + 1 > mid then lb + 1 else mid;
      }
    }
  }

  predicate In(d: Dir, j: int, v: int) {
    0 <= j < |d.lbVal| && j < |d.ubVal| && d.lbVal[j] <= v <= d.ubVal[j]
  }

  function End(d: Dir, j: int, n: int): int
    requires 0 <= j < |d.ubIdx|
  {
    if d.ubIdx[j] > n then n else d.ubIdx[j]
  }

  /** The index range of entry `j` is sorted and holds every value of the entry's bounds. */
  ghost predicate EntryOK(d: Dir, f2: seq<int>, j: int)
    requires 0 <= j < |d.lbIdx| && j < |d.ubIdx|
  {
    var lo, hi := d.lbIdx[j], End(d, j, |f2|);
    && 0 <= lo && (lo <= hi ==> Ascending(f2[lo..hi]))
    && forall p :: 0 <= p < |f2| && In(d, j, f2[p]) ==> lo <= p < hi
  }

  /** What the caller builds: bounds in order, every value of f2 in some entry. */
  ghost predicate GoodDir(d: Dir, f2: seq<int>) {
    && |d.lbVal| > 0 && |d.ubVal| == |d.lbVal| && |d.lbIdx| == |d.lbVal| && |d.ubIdx| == |d.lbVal|
    && Ascending(d.lbVal) && Ascending(d.ubVal)
    && (forall j {:trigger EntryOK(d, f2, j)} :: 0 <= j < |d.lbVal| ==> EntryOK(d, f2, j))
    && (forall p :: 0 <= p < |f2| ==> Listed(d, f2[p]))
  }

  ghost predicate Listed(d: Dir, v: int) {
    exists j :: In(d, j, v)
  }

  predicate Within(d: Dir, v: int)
    requires |d.lbVal| > 0 && |d.ubVal| == |d.lbVal|
  {
    d.lbVal[0] <= v <= d.ubVal[|d.ubVal|-1]
  }

  /** Between the outer bounds but in no entry. */
  ghost predicate InGap(d: Dir, v: int)
    requires |d.lbVal| > 0 && |d.ubVal| == |d.lbVal|
  {
    Within(d, v) && !Listed(d, v)
  }

  /** The first entry from `start` on that holds `v`, -1 when there is none. */
  function FirstIn(d: Dir, v: int, start: nat): (j: int)
    ensures j == -1 || start <= j < |d.lbVal|
    decreases |d.lbVal| - start
  {
    if start >= |d.lbVal| then -1 else if In(d, start, v) then start else FirstIn(d, v, start + 1)
  }

  lemma {:induction false} FirstInIs(d: Dir, v: int, start: nat, j: int)
    requires |d.ubVal| == |d.lbVal| && start <= j <= |d.lbVal| && (forall k :: start <= k < j ==> !In(d, k, v))
    requires j < |d.lbVal| ==> In(d, j, v)
    ensures FirstIn(d, v, start) == if j < |d.lbVal| then j else -1
    decreases j - start
  {
    if start < j { FirstInIs(d, v, start + 1, j); }
  }

  /** Where the scan for the next row starts. */
  function NextStart(d: Dir, v: int, start: nat): (s: nat)
    requires |d.lbVal| > 0 && |d.ubVal| == |d.lbVal|
    ensures start < |d.lbVal| ==> s < |d.lbVal|
  {
    if !Within(d, v) then start else if FirstIn(d, v, start) >= 0 then FirstIn(d, v, start) else |d.lbVal| - 1
  }

  /** Where the scan for row `i` starts. */
  function StartFor(d: Dir, f1: seq<int>, i: nat): (s: nat)
    requires |d.lbVal| > 0 && |d.ubVal| == |d.lbVal| && i <= |f1|
    ensures s < |d.lbVal|
  {
    if i == 0 then 0 else NextStart(d, f1[i-1], StartFor(d, f1, i - 1))
  }

  /** Row `i` meets an entry whose index range is empty. */
  predicate MeetsEmpty(d: Dir, f1: seq<int>, f2: seq<int>, i: nat)
    requires |d.lbVal| > 0 && |d.ubVal| == |d.lbVal| && |d.lbIdx| == |d.lbVal| && |d.ubIdx| == |d.lbVal| && i < |f1|
  {
    var j := FirstIn(d, f1[i], StartFor(d, f1, i));
    Within(d, f1[i]) && j >= 0 && d.lbIdx[j] >= End(d, j, |f2|)
  }

  /** The scan over the directory from `start` (dir_is_a_in_b.c:158-169). */
  method FindRange(d: Dir, v: int, start0: int) returns (j: int, start: int)
    requires |d.lbVal| > 0 && |d.ubVal| == |d.lbVal| && 0 <= start0 < |d.lbVal|
    ensures !Within(d, v) ==> j == -1 && start == start0
    ensures Within(d, v) && j >= 0 ==> start == j && start0 <= j && In(d, j, v)
    ensures Within(d, v) && j < 0 ==> start == |d.lbVal| - 1 && forall k :: start0 <= k < |d.lbVal| ==> !In(d, k, v)
    ensures start == NextStart(d, v, start0) && j == if Within(d, v) then FirstIn(d, v, start0) else -1
  {
    start, j := start0, start0;
    while j < |d.lbVal|
      invariant start0 <= j <= |d.lbVal|
      invariant j > start0 ==> Within(d, v) && start == j - 1
      invariant j == start0 ==> start == start0
      invariant forall k :: start0 <= k < j ==> !In(d, k, v)
    {
      if v < d.lbVal[0] { return -1, start; }
      if v > d.ubVal[|d.ubVal|-1] { return -1, start; }
      start := j;
      if d.lbVal[j] <= v <= d.ubVal[j] {
        FirstInIs(d, v, start0, j);
        return;
      }
      j := j + 1;
    }
    FirstInIs(d, v, start0, j);
    return -1, start;
  }

  /** Row `i` is out of reach: an earlier value in a gap has moved the start to the last entry. */
  ghost predicate Lost(d: Dir, f1: seq<int>, i: int)
    requires |d.lbVal| > 0 && |d.ubVal| == |d.lbVal| && 0 <= i < |f1|
  {
    AfterGap(d, f1, i) && f1[i] < d.lbVal[|d.lbVal|-1]
  }

  ghost predicate AfterGap(d: Dir, f1: seq<int>, i: int)
    requires |d.lbVal| > 0 && |d.ubVal| == |d.lbVal| && 0 <= i <= |f1|
  {
    exists k :: 0 <= k < i && InGap(d, f1[k])
  }

  /** No entry before `start` is needed for a value from `v` on. */
  ghost predicate StartOK(d: Dir, start: int, v: int) {
    forall j, w :: 0 <= j < start && v <= w && In(d, j, w) ==> In(d, start, w)
  }

  /** The state between rows. */
  ghost predicate Between(d: Dir, f1: seq<int>, i: nat, start: int)
    requires |d.lbVal| > 0 && |d.ubVal| == |d.lbVal| && i <= |f1|
  {
    && 0 <= start < |d.lbVal|
    && (AfterGap(d, f1, i) ==> start == |d.lbVal| - 1)
    && (!AfterGap(d, f1, i) && i > 0 ==> StartOK(d, start, f1[i-1]))
    && (i == 0 ==> start == 0)
  }

  lemma StepGap(d: Dir, f1: seq<int>, i: nat, next: nat)
    requires |d.lbVal| > 0 && |d.ubVal| == |d.lbVal| && next == i + 1 <= |f1|
    ensures AfterGap(d, f1, next) <==> AfterGap(d, f1, i) || InGap(d, f1[i])
  {}

  /** A value listed before `start` is listed at `start`. */
  lemma FoundLater(d: Dir, f1: seq<int>, i: nat, start: int, v: int)
    requires |d.lbVal| > 0 && |d.ubVal| == |d.lbVal| && Ascending(f1) && i < |f1| && v == f1[i]
    requires Between(d, f1, i, start) && !AfterGap(d, f1, i) && (forall k :: start <= k < |d.lbVal| ==> !In(d, k, v))
    ensures !Listed(d, v)
  {
    assert i > 0 ==> f1[i-1] <= v;
    assert forall j :: In(d, j, v) ==> 0 <= j < start;
  }

  lemma FoundStarts(d: Dir, j: int, v: int)
    requires Ascending(d.lbVal) && Ascending(d.ubVal) && |d.ubVal| == |d.lbVal| && In(d, j, v)
    ensures StartOK(d, j, v)
  {
    forall k, w | 0 <= k < j && v <= w && In(d, k, w) ensures In(d, j, w) {
      assert d.ubVal[k] <= d.ubVal[j];
    }
  }

  /** One row: the state afterwards. */
  lemma BetweenStep(d: Dir, f1: seq<int>, i: nat, next: nat, start0: int, j: int, start: int)
    requires |d.lbVal| > 0 && |d.ubVal| == |d.lbVal| && Ascending(d.lbVal) && Ascending(d.ubVal) && Ascending(f1)
    requires next == i + 1 <= |f1|
    requires Between(d, f1, i, start0)
    requires !Within(d, f1[i]) ==> j == -1 && start == start0
    requires Within(d, f1[i]) && j >= 0 ==> start == j && start0 <= j && In(d, j, f1[i])
    requires Within(d, f1[i]) && j < 0 ==> start == |d.lbVal| - 1 && forall k :: start0 <= k < |d.lbVal| ==>
        !In(d, k, f1[i])
    ensures Between(d, f1, next, start)
  {
    var v := f1[i];
    StepGap(d, f1, i, next);
    if AfterGap(d, f1, i) {
    } else if !Within(d, v) {
      assert i > 0 ==> f1[i-1] <= v;
    } else if j >= 0 {
      FoundStarts(d, j, v);
      assert Listed(d, v);
    } else {
      FoundLater(d, f1, i, start0, v);
    }
  }

  /** One row: when it is found at all. */
  lemma FoundExactly(d: Dir, f1: seq<int>, i: nat, start0: int, j: int, start: int)
    requires |d.lbVal| > 0 && |d.ubVal| == |d.lbVal| && Ascending(d.lbVal) && Ascending(d.ubVal) && Ascending(f1)
    requires i < |f1|
    requires Between(d, f1, i, start0)
    requires !Within(d, f1[i]) ==> j == -1 && start == start0
    requires Within(d, f1[i]) && j >= 0 ==> start == j && start0 <= j && In(d, j, f1[i])
    requires Within(d, f1[i]) && j < 0 ==> forall k :: start0 <= k < |d.lbVal| ==> !In(d, k, f1[i])
    ensures j >= 0 ==> In(d, j, f1[i]) && !Lost(d, f1, i)
    ensures j < 0 ==> !Listed(d, f1[i]) || Lost(d, f1, i)
  {
    var v, last := f1[i], |d.lbVal| - 1;
    if j < 0 && Within(d, v) {
      if AfterGap(d, f1, i) { assert !In(d, last, v); } else { FoundLater(d, f1, i, start0, v); }
    }
    if Listed(d, v) { ListedWithin(d, v); }
  }

  lemma ListedWithin(d: Dir, v: int)
    requires |d.lbVal| > 0 && |d.ubVal| == |d.lbVal| && Ascending(d.lbVal) && Ascending(d.ubVal) && Listed(d, v)
    ensures Within(d, v)
  {
    var k :| In(d, k, v);
    assert k < |d.lbVal| - 1 ==> d.ubVal[k] <= d.ubVal[|d.lbVal|-1];
  }

  /** Searching the entry's range decides membership in the whole column. */
  lemma RangeDecides(d: Dir, f2: seq<int>, j: int, v: int)
    requires GoodDir(d, f2) && In(d, j, v)
    ensures EntryOK(d, f2, j)
    ensures var lo, hi := d.lbIdx[j], End(d, j, |f2|); if lo <= hi then v in f2 <==> v in f2[lo..hi] else v !in f2
  {
    assert EntryOK(d, f2, j);
    if v in f2 {
      var p :| 0 <= p < |f2| && f2[p] == v;
      var lo, hi := d.lbIdx[j], End(d, j, |f2|);
      assert lo <= p < hi && f2[lo..hi][p - lo] == v;
    }
  }

  /** The search in the index range of entry `j` (dir_is_a_in_b.c:162-182). */
  method InEntry(f2: seq<int>, d: Dir, j: int, v: int) returns (status: int, hit: bool)
    requires GoodDir(d, f2) && In(d, j, v)
    ensures status == if d.lbIdx[j] >= End(d, j, |f2|) then -1 else 0
    ensures status == 0 ==> (hit <==> v in f2)
  {
    RangeDecides(d, f2, j, v);
    var lo, hi := d.lbIdx[j], d.ubIdx[j];
    if hi > |f2| { hi := |f2|; }
    var pos;
    status, pos := BinSearch(f2, lo, hi - lo, v);
    hit := pos >= 0;
    if status == 0 && hit { assert f2[lo..hi][pos] == v; }
  }

  /** The body of the loop over f1 (dir_is_a_in_b.c:154-184). */
  method Row(f1: seq<int>, f2: seq<int>, d: Dir, i: nat, next: nat, start0: int)
    returns (status: int, hit: bool, start: int)
    requires GoodDir(d, f2) && Ascending(f1) && next == i + 1 <= |f1| && Between(d, f1, i, start0)
    requires start0 == StartFor(d, f1, i)
    ensures status == if MeetsEmpty(d, f1, f2, i) then -1 else 0
    ensures Between(d, f1, next, start) && start == StartFor(d, f1, next)
    ensures status == 0 ==> (hit <==> f1[i] in f2 && !Lost(d, f1, i))
  {
    var v := f1[i];
    var j;
    j, start := FindRange(d, v, start0);
    BetweenStep(d, f1, i, next, start0, j, start);
    FoundExactly(d, f1, i, start0, j, start);
    if j < 0 {
      assert v in f2 ==> Listed(d, v);
      return 0, false, start;
    }
    status, hit := InEntry(f2, d, j, v);
  }

  /**
   dir_is_a_in_b: row `i` of the result says whether f1[i] occurs in f2,
   unless the row is lost.  The call fails exactly at the first row that meets
   an entry with an empty index range.
   */
  method DirIsAInB(f1: seq<int>, f2: seq<int>, d: Dir) returns (status: int, cf: seq<bool>)
    requires GoodDir(d, f2) && Ascending(f1)
    ensures status == 0 ==> |cf| == |f1| && forall i :: 0 <= i < |f1| ==> (cf[i] <==> f1[i] in f2 && !Lost(d, f1, i))
    ensures status == if exists i :: 0 <= i < |f1| && MeetsEmpty(d, f1, f2, i) then -1 else 0
    ensures status != 0 ==> |cf| < |f1| && MeetsEmpty(d, f1, f2, |cf|) && forall i :: 0 <= i < |cf| ==>
        !MeetsEmpty(d, f1, f2, i)
  {
    status, cf := 0, [];
    var i, start := 0, 0;
    while i < |f1|
      invariant 0 <= i <= |f1| && |cf| == i && status == 0 && Between(d, f1, i, start) && start == StartFor(d, f1, i)
      invariant forall k :: 0 <= k < i ==> !MeetsEmpty(d, f1, f2, k)
      invariant forall k :: 0 <= k < i ==> (cf[k] <==> f1[k] in f2 && !Lost(d, f1, k))
    {
      var next := i + 1;
      var hit;
      status, hit, start := Row(f1, f2, d, i, next, start);
      if status < 0 { return; }
      cf := cf + [hit];
      i := next;
    }
  }

  /**
   The result is membership for every row exactly when no value in a gap of
   the directory comes before a value of f2 below the last entry.
   */
  lemma MembershipExactly(f1: seq<int>, f2: seq<int>, d: Dir, cf: seq<bool>)
    requires GoodDir(d, f2) && |cf| == |f1| && forall i :: 0 <= i < |f1| ==> (cf[i] <==> f1[i] in f2 && !Lost(d, f1, i))
    ensures (forall i :: 0 <= i < |f1| ==> (cf[i] <==> f1[i] in f2)) <==>
            forall k, i :: 0 <= k < i < |f1| && InGap(d, f1[k]) && f1[i] in f2 ==> f1[i] >= d.lbVal[|d.lbVal|-1]
  {
    if forall i :: 0 <= i < |f1| ==> (cf[i] <==> f1[i] in f2) {
      forall k, i | 0 <= k < i < |f1| && InGap(d, f1[k]) && f1[i] in f2 ensures f1[i] >= d.lbVal[|d.lbVal|-1] {
        assert cf[i] && !Lost(d, f1, i);
      }
    }
  }

  /** Without gaps it always is. */
  lemma GaplessMembership(f1: seq<int>, f2: seq<int>, d: Dir, i: nat)
    requires GoodDir(d, f2) && i < |f1|
    requires forall j, k :: 0 <= j < |d.lbVal| - 1 && k == j + 1 ==> d.lbVal[k] <= d.ubVal[j] + 1
    requires forall j :: 0 <= j < |d.lbVal| ==> d.lbVal[j] <= d.ubVal[j]
    ensures !Lost(d, f1, i)
  {
    forall k | 0 <= k < i && Within(d, f1[k]) ensures Listed(d, f1[k]) {
      NoGap(d, f1[k], |d.lbVal| - 1);
    }
  }

  lemma {:induction false} NoGap(d: Dir, v: int, n: nat)
    requires |d.ubVal| == |d.lbVal| && n < |d.lbVal| && d.lbVal[0] <= v <= d.ubVal[n]
    requires forall j, k :: 0 <= j < |d.lbVal| - 1 && k == j + 1 ==> d.lbVal[k] <= d.ubVal[j] + 1
    ensures Listed(d, v)
  {
    if v >= d.lbVal[n] {
      assert In(d, n, v);
    } else {
      var j, k := n - 1, n;
      assert d.lbVal[k] <= d.ubVal[j] + 1;
      NoGap(d, v, n - 1);
    }
  }

  /** A directory with a gap: 3 is looked for first, then 5 is not found although it is there. */
  lemma GapLoses() returns (d: Dir, f1: seq<int>, f2: seq<int>)
    ensures f1 == [3, 5] && f2 == [1, 5, 9] && d == Dir(f2, f2, [0, 1, 2], [1, 2, 3])
    ensures GoodDir(d, f2) && Ascending(f1) && f1[1] in f2 && Lost(d, f1, 1)
  {
    f1, f2 := [3, 5], [1, 5, 9];
    d := Dir(f2, f2, [0, 1, 2], [1, 2, 3]);
    GapExampleGood(d, f2);
    GapExampleLost(d, f1, f2);
  }

  lemma GapExampleLost(d: Dir, f1: seq<int>, f2: seq<int>)
    requires f1 == [3, 5] && f2 == [1, 5, 9] && d.lbVal == f2 && d.ubVal == f2
    ensures Ascending(f1) && f1[1] in f2 && Lost(d, f1, 1)
  {
    assert f2[1] == f1[1];
    forall j ensures !In(d, j, 3) {
      assert j == 0 || j == 1 || j == 2 || j < 0 || j > 2;
    }
    assert InGap(d, f1[0]);
  }

  lemma GapExampleGood(d: Dir, f2: seq<int>)
    requires f2 == [1, 5, 9] && d == Dir(f2, f2, [0, 1, 2], [1, 2, 3])
    ensures GoodDir(d, f2)
  {
    forall j | 0 <= j < 3 ensures EntryOK(d, f2, j) {
      assert |f2[d.lbIdx[j]..End(d, j, 3)]| == 1;
    }
    assert In(d, 0, f2[0]) && In(d, 1, f2[1]) && In(d, 2, f2[2]);
  }
}
