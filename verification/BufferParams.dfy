/**
 determine_b_k (q-base/src/determine_b_k.c): how many buffers, and how long.
 The error fraction `eps` is an exact real here, not a double.
 */
module BufferParams {
  import opened Arithmetic
  import opened Ranks

  function Pow2(n: nat): (p: nat)
    ensures p >= 1
  {
    if n == 0 then 1 else Pow2(n - 1) + Pow2(n - 1)
  }

  lemma {:induction false} Pow2Monotone(m: nat, n: nat)
    requires m <= n
    ensures Pow2(m) <= Pow2(n)
  {
    if m < n { Pow2Monotone(m, n - 1); }
  }

  /** (b-2) * 2^(b-2): the rank slack that `b` buffers can accumulate; none for a single buffer. */
  function Slack(b: nat): nat {
    if b < 2 then 0 else Scale(Pow2(b - 2), b - 2)
  }

  lemma SlackClosed(b: nat)
    requires b >= 2
    ensures Slack(b) == (b - 2) * Pow2(b - 2)
  {
    ScaleIsProduct(Pow2(b - 2), b - 2);
  }

  lemma SlackMonotone(m: nat, n: nat)
    requires m <= n
    ensures Slack(m) <= Slack(n)
  {
    if m >= 2 {
      Pow2Monotone(m - 2, n - 2);
      ScaleGrowsInBoth(Pow2(m - 2), Pow2(n - 2), m - 2, n - 2);
    }
  }

  lemma {:induction false} ScaleGrowsInBoth(w: nat, w': nat, m: nat, n: nat)
    requires w <= w' && m <= n
    ensures Scale(w, m) <= Scale(w', n)
  {
    if n > 0 { ScaleGrowsInBoth(w, w', if m == n then m - 1 else m, n - 1); }
  }

  lemma SlackGrows(b: nat)
    requires b >= 2
    ensures Slack(b) >= b - 2
  {
    SlackAtLeast(Pow2(b - 2), b - 2);
  }

  lemma {:induction false} SlackAtLeast(w: nat, n: nat)
    requires w >= 1
    ensures Scale(w, n) >= n
  {
    if n > 0 { SlackAtLeast(w, n - 1); }
  }

  /** The size chosen for each buffer: the rounded-up share of `siz`, but never below 10000. */
  function BufferSize(siz: nat, b: nat): nat
    requires b >= 1
  {
    var p := Pow2(b - 1);
    var k := if siz % p == 0 then siz / p else siz / p + 1;
    if k < 10000 then 10000 else k
  }

  /** Enough room: the buffers' combined capacity at full weight covers the data. */
  lemma CapacityCovers(siz: nat, b: nat)
    requires b >= 1
    ensures siz <= Scale(BufferSize(siz, b), Pow2(b - 1))
  {
    var p := Pow2(b - 1);
    var k := if siz % p == 0 then siz / p else siz / p + 1;
    CeilCovers(siz, p, k);
    ScaleIsProduct(BufferSize(siz, b), p);
    MulMonotone(p, k, BufferSize(siz, b));
  }

  lemma CeilCovers(siz: nat, p: nat, k: nat)
    requires p > 0 && k == if siz % p == 0 then siz / p else siz / p + 1
    ensures siz <= p * k
  {
    assert siz == p * (siz / p) + siz % p;
    assert p * (siz / p + 1) == p * (siz / p) + p;
  }

  /** The greatest b whose slack (plus one) stays below the allowed error; 1 when even b = 2 does not. */
  ghost predicate IsChoice(eps: real, siz: nat, b: nat) {
    && b >= 1
    && (b >= 2 ==> (Slack(b) + 1) as real < eps * siz as real)
    && (Slack(b + 1) + 1) as real >= eps * siz as real
  }

  /** The least size from 10000 on with which `b` buffers hold the data (determine_b_k.c:52-62). */
  method ChooseK(siz: nat, b: nat) returns (k: nat)
    requires b >= 1
    ensures k == BufferSize(siz, b) && siz <= Scale(k, Pow2(b - 1))
    ensures k >= 10000 && (k > 10000 ==> (k - 1) * Pow2(b - 1) < siz)
  {
    var p := Pow2(b - 1);
    k := if siz % p == 0 then siz / p else siz / p + 1;
    OneLessIsTooSmall(siz, p, k);
    if k < 10000 { k := 10000; }
    CapacityCovers(siz, b);
  }

  lemma OneLessIsTooSmall(siz: nat, p: nat, k: nat)
    requires p > 0 && k == if siz % p == 0 then siz / p else siz / p + 1
    ensures k > 0 ==> (k - 1) * p < siz
  {
    assert siz == p * (siz / p) + siz % p;
    assert k > 0 ==> (k - 1) * p == k * p - p;
    assert (siz / p + 1) * p == p * (siz / p) + p;
  }

  method DetermineBK(eps: real, siz: nat) returns (b: nat, k: nat)
    requires 0.0 <= eps <= 1.0
    ensures IsChoice(eps, siz, b)
    ensures k == BufferSize(siz, b)
    ensures siz <= Scale(k, Pow2(b - 1))
    ensures k >= 10000 && (k > 10000 ==> (k - 1) * Pow2(b - 1) < siz)
  {
    b := 2;
    var target := eps * siz as real;
    while (Slack(b) + 1) as real < target
      invariant b >= 2
      invariant b > 2 ==> (Slack(b - 1) + 1) as real < target
      decreases target.Floor + 2 - b
    {
      SlackGrows(b);
      b := b + 1;
    }
    b := b - 1;
    k := ChooseK(siz, b);
  }

  /** Whatever the choice, the slack is within the allowed error `eps * siz`. */
  lemma SlackWithinError(eps: real, siz: nat, b: nat)
    requires 0.0 <= eps && IsChoice(eps, siz, b)
    ensures b >= 2 ==> Slack(b) as real < eps * siz as real - 1.0
    ensures b == 1 ==> Slack(b) == 0
  {}
}
