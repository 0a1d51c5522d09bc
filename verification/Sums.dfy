/**
 Sums over sequences, and how many of their entries are zero.
 */
module Sums {

  function Total(s: seq<int>): int {
    if s == [] then 0 else Total(s[..|s|-1]) + s[|s|-1]
  }

  lemma {:induction false} TotalUpdate(s: seq<int>, m: nat, x: int)
    requires m < |s|
    ensures Total(s[m := x]) == Total(s) - s[m] + x
  {
    var n := |s| - 1;
    if m == n {
      assert s[m := x][..n] == s[..n];
    } else {
      assert s[m := x][..n] == s[..n][m := x];
      TotalUpdate(s[..n], m, x);
    }
  }

  lemma {:induction false} TotalOrder(s: seq<int>, t: seq<int>)
    requires |s| == |t| && forall i :: 0 <= i < |s| ==> s[i] <= t[i]
    ensures Total(s) <= Total(t)
  {
    if s != [] { TotalOrder(s[..|s|-1], t[..|t|-1]); }
  }

  lemma {:induction false} TotalAtLeast(s: seq<int>, m: nat)
    requires m < |s| && forall i :: 0 <= i < |s| ==> s[i] >= 0
    ensures 0 <= s[m] <= Total(s)
  {
    var n := |s| - 1;
    if m < n { TotalAtLeast(s[..n], m); } else if n > 0 { TotalAtLeast(s[..n], 0); }
  }

  lemma {:induction false} TotalZero(s: seq<int>)
    requires forall i :: 0 <= i < |s| ==> s[i] == 0
    ensures Total(s) == 0
  {
    if s != [] { TotalZero(s[..|s|-1]); }
  }

  /** Two entries of non-negative weights together stay within the total. */
  lemma TotalTwo(s: seq<int>, i: nat, j: nat)
    requires i < |s| && j < |s| && i != j && forall n :: 0 <= n < |s| ==> s[n] >= 0
    ensures s[i] + s[j] <= Total(s)
  {
    TotalUpdate(s, i, 0);
    TotalAtLeast(s[i := 0], j);
  }

  /** How many entries are zero. */
  function Zeros(s: seq<int>): (n: nat)
    ensures n <= |s|
  {
    if s == [] then 0 else Zeros(s[..|s|-1]) + if s[|s|-1] == 0 then 1 else 0
  }

  /** The number of places that hold zero. */
  lemma {:induction false} ZerosIs(s: seq<int>)
    ensures Zeros(s) == |set i | 0 <= i < |s| && s[i] == 0|
  {
    if s != [] {
      var n := |s| - 1;
      ZerosIs(s[..n]);
      assert (set i | 0 <= i < |s| && s[i] == 0)
          == (set i | 0 <= i < n && s[..n][i] == 0) + if s[n] == 0 then {n} else {};
    }
  }

  lemma {:induction false} ZerosUpdate(s: seq<int>, m: nat, x: int)
    requires m < |s|
    ensures Zeros(s[m := x]) == Zeros(s) - (if s[m] == 0 then 1 else 0) + (if x == 0 then 1 else 0)
  {
    var n := |s| - 1;
    if m == n {
      assert s[m := x][..n] == s[..n];
    } else {
      assert s[m := x][..n] == s[..n][m := x];
      ZerosUpdate(s[..n], m, x);
    }
  }

  lemma {:induction false} ZerosNone(s: seq<int>)
    ensures Zeros(s) == 0 <==> forall i :: 0 <= i < |s| ==> s[i] != 0
  {
    if s != [] {
      var n := |s| - 1;
      ZerosNone(s[..n]);
      if Zeros(s[..n]) != 0 {
        var i :| 0 <= i < n && s[..n][i] == 0;
        assert s[i] == 0;
      } else {
        assert forall i :: 0 <= i < n ==> s[i] == s[..n][i];
      }
    }
  }

  lemma {:induction false} ZerosAll(s: seq<int>)
    requires forall i :: 0 <= i < |s| ==> s[i] == 0
    ensures Zeros(s) == |s|
  {
    if s != [] { ZerosAll(s[..|s|-1]); }
  }
}
