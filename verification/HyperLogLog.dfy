/**
 The registers of q-base/src/approx_unique.c (HyperLogLog): the greatest rho
 per bin, and neighbouring bins folded in place while too many are unused.
 */
module HyperLogLog {
  import opened Arithmetic
  import opened Blocks
  import opened Masks
  import opened Sums
  import opened BufferParams

  const LOW := 0x1000_0000_0000 // 2^44: the low bits give rho, the 20 high bits the bin
  const RHO_BITS := 44

  /** __builtin_ctzll. */
  function Ctz(h: nat): nat {
    if h == 0 || h % 2 == 1 then 0 else 1 + Ctz(h / 2)
  }

  function Rho(h: nat): nat { Ctz(h) + 1 }

  /** Hash values that determine_rho_loc refuses. */
  predicate Bad(h: nat) { h == 0 || Rho(h) > RHO_BITS }

  /** rho is the position of the lowest 1: that power of two divides the hash, the next does not. */
  lemma {:induction false} RhoLowestOne(h: nat, n: nat)
    requires h > 0
    ensures h % Pow2(n) == 0 <==> n < Rho(h)
  {
    if n > 0 {
      if h % 2 == 0 {
        RhoLowestOne(h / 2, n - 1);
        HalfDivides(h / 2, Pow2(n - 1));
      } else {
        OddNotDivided(h, Pow2(n - 1));
      }
    }
  }

  lemma HalfDivides(k: nat, p: nat)
    requires p > 0
    ensures (2 * k) % (2 * p) == 0 <==> k % p == 0
  {
    if (2 * k) % (2 * p) == 0 {
      var q := (2 * k) / (2 * p);
      assert 2 * k == 2 * p * q == 2 * (p * q);
      RemainderUnique(q, 0, p);
    }
    if k % p == 0 {
      var q := k / p;
      assert 2 * k == 2 * (p * q) == 2 * p * q;
      RemainderUnique(q, 0, 2 * p);
    }
  }

  lemma OddNotDivided(h: nat, p: nat)
    requires h % 2 == 1 && p > 0
    ensures h % (2 * p) != 0
  {
    var q := h / (2 * p);
    assert h % (2 * p) == 0 ==> h == 2 * p * q == 2 * (p * q);
  }

  lemma LowIsPower()
    ensures Pow2(RHO_BITS) == LOW
  {
    assert Pow2(11) == 0x800;
    assert Pow2(22) == 0x800 * 0x800 by { Pow2Add(11, 11); }
    assert Pow2(44) == LOW by { Pow2Add(22, 22); }
  }

  lemma {:induction false} Pow2Add(a: nat, b: nat)
    ensures Pow2(a + b) == Pow2(a) * Pow2(b)
  {
    if a > 0 { Pow2Add(a - 1, b); }
  }

  /** The refused hashes are the multiples of 2^44. */
  lemma BadHashes(h: nat)
    ensures Bad(h) <==> h % LOW == 0
  {
    if h > 0 {
      RhoLowestOne(h, RHO_BITS);
      LowIsPower();
    }
  }

  // ----- registers

  /** The bin of a hash among `m`, a power of two: the high bits under the mask m - 1. */
  function Loc(h: nat, m: nat): (l: nat)
    requires m > 0
    ensures l < m
  {
    (h / LOW) % m
  }

  /** `l` is the part of the hash between its low 44 bits and the multiples of `m` above them. */
  ghost predicate Splits(h: nat, m: nat, l: nat, q: nat, low: nat) {
    l < m && low < 0x1000_0000_0000 && h == (q * m + l) * 0x1000_0000_0000 + low
  }

  lemma LocSplits(h: nat, m: nat) returns (q: nat, low: nat)
    requires m > 0
    ensures Splits(h, m, Loc(h, m), q, low)
  {
    q, low := h / LOW / m, h % LOW;
    Division(h / LOW, m);
  }

  /** No other number is. */
  lemma SplitUnique(h: nat, m: nat, l: nat, q: nat, low: nat)
    requires m > 0 && Splits(h, m, l, q, low)
    ensures l == Loc(h, m)
  {
    QuotientUnique(h, q * m + l, low, LOW);
    QuotientUnique(h / LOW, q, l, m);
  }

  /** Hash function and number of bins at the start. */
  datatype Binning = Binning(hash: int -> nat, m: nat)

  /** The bin of value `v` after `t` foldings. */
  function Bin(b: Binning, t: nat, v: int): nat
    requires b.m > 0
  {
    if t == 0 then Loc(b.hash(v), b.m) else Bin(b, t - 1, v) / 2
  }

  lemma {:induction false} BinClosed(b: Binning, t: nat, v: int)
    requires b.m > 0
    ensures Bin(b, t, v) == Bin(b, 0, v) / Pow2(t)
  {
    if t > 0 {
      BinClosed(b, t - 1, v);
      DivideTwice(Bin(b, 0, v), Pow2(t - 1));
    }
  }

  lemma DivideTwice(l: nat, p: nat)
    requires p > 0
    ensures l / p / 2 == l / (p + p)
  {
    var q, r := l / (2 * p), l % (2 * p);
    assert l == 2 * p * q + r && 2 * p * q == p * (2 * q);
    assert 2 * p == p + p;
    if r < p {
      QuotientUnique(l, 2 * q, r, p);
    } else {
      assert p * (2 * q + 1) == p * (2 * q) + p;
      QuotientUnique(l, 2 * q + 1, r - p, p);
    }
  }

  /** `x` is the greatest rho of the values of `s` in bin `j`, 0 when there are none. */
  ghost predicate IsMax(b: Binning, t: nat, s: set<int>, j: int, x: int)
    requires b.m > 0
  {
    && (forall v :: v in s && Bin(b, t, v) == j ==> Rho(b.hash(v)) <= x)
    && (x == 0 || exists v :: v in s && Bin(b, t, v) == j && Rho(b.hash(v)) == x)
  }

  ghost predicate Registers(b: Binning, t: nat, s: set<int>, regs: seq<int>)
    requires b.m > 0
  {
    forall j {:trigger IsMax(b, t, s, j, regs[j])} :: 0 <= j < |regs| ==> IsMax(b, t, s, j, regs[j])
  }

  /** A register is zero exactly when no value falls into its bin. */
  lemma ZeroUnused(b: Binning, t: nat, s: set<int>, regs: seq<int>, j: nat)
    requires b.m > 0 && Registers(b, t, s, regs) && j < |regs|
    ensures regs[j] == 0 <==> forall v :: v in s ==> Bin(b, t, v) != j
  {
    assert IsMax(b, t, s, j, regs[j]);
    if regs[j] == 0 {
      forall v | v in s ensures Bin(b, t, v) != j { assert Rho(b.hash(v)) >= 1; }
    }
  }

  lemma MaxUnique(b: Binning, t: nat, s: set<int>, j: int, x: int, y: int)
    requires b.m > 0 && IsMax(b, t, s, j, x) && IsMax(b, t, s, j, y)
    ensures x <= y
  {
    if x != 0 {
      var v :| v in s && Bin(b, t, v) == j && Rho(b.hash(v)) == x;
    }
  }

  /** The registers depend on the set of values alone: not on order, repetition or blocks. */
  lemma RegistersUnique(b: Binning, t: nat, s: set<int>, p: seq<int>, q: seq<int>)
    requires b.m > 0 && |p| == |q| && Registers(b, t, s, p) && Registers(b, t, s, q)
    ensures p == q
  {
    forall j | 0 <= j < |p| ensures p[j] == q[j] {
      assert IsMax(b, t, s, j, p[j]) && IsMax(b, t, s, j, q[j]);
      MaxUnique(b, t, s, j, p[j], q[j]);
      MaxUnique(b, t, s, j, q[j], p[j]);
    }
  }

  /** One more value. */
  function Raise(regs: seq<int>, l: nat, rho: int): seq<int>
    requires l < |regs|
  {
    if regs[l] < rho then regs[l := rho] else regs
  }

  lemma RaiseKeeps(b: Binning, s: set<int>, regs: seq<int>, v: int)
    requires b.m > 0 && |regs| == b.m && Registers(b, 0, s, regs)
    ensures Registers(b, 0, s + {v}, Raise(regs, Bin(b, 0, v), Rho(b.hash(v))))
  {
    var now := Raise(regs, Bin(b, 0, v), Rho(b.hash(v)));
    forall j | 0 <= j < |now| ensures IsMax(b, 0, s + {v}, j, now[j]) {
      assert IsMax(b, 0, s, j, regs[j]);
      MaxMore(b, s, j, regs[j], v, now[j]);
    }
  }

  lemma MaxMore(b: Binning, s: set<int>, j: int, x: int, v: int, y: int)
    requires b.m > 0 && IsMax(b, 0, s, j, x)
    requires y == if Bin(b, 0, v) == j && x < Rho(b.hash(v)) then Rho(b.hash(v)) else x
    ensures IsMax(b, 0, s + {v}, j, y)
  {
    if y == x && x != 0 {
      var u :| u in s && Bin(b, 0, u) == j && Rho(b.hash(u)) == x;
      assert u in s + {v};
    } else if y != x {
      assert v in s + {v};
    }
  }

  // ----- folding

  function Max(x: int, y: int): int { if x >= y then x else y }

  /** Registers after one folding. */
  function Folded(regs: seq<int>): (f: seq<int>)
    requires |regs| % 2 == 0
    ensures |f| == |regs| / 2
  {
    seq(|regs| / 2, j requires 0 <= j < |regs| / 2 => Max(regs[2*j], regs[2*j+1]))
  }

  lemma FoldMax(b: Binning, t: nat, s: set<int>, j: nat, x: int, y: int)
    requires b.m > 0 && IsMax(b, t, s, 2 * j, x) && IsMax(b, t, s, 2 * j + 1, y) && x >= 0 && y >= 0
    ensures IsMax(b, t + 1, s, j, Max(x, y))
  {
    var z := Max(x, y);
    forall v | v in s && Bin(b, t + 1, v) == j ensures Rho(b.hash(v)) <= z {
      assert Bin(b, t, v) / 2 == j;
      assert Bin(b, t, v) == 2 * j || Bin(b, t, v) == 2 * j + 1;
    }
    if z != 0 {
      if z == x {
        var v :| v in s && Bin(b, t, v) == 2 * j && Rho(b.hash(v)) == x;
        assert Bin(b, t + 1, v) == j;
      } else {
        var v :| v in s && Bin(b, t, v) == 2 * j + 1 && Rho(b.hash(v)) == y;
        assert Bin(b, t + 1, v) == j;
      }
    }
  }

  ghost predicate NonNegative(regs: seq<int>) {
    forall j :: 0 <= j < |regs| ==> regs[j] >= 0
  }

  lemma FoldKeeps(b: Binning, t: nat, s: set<int>, regs: seq<int>)
    requires b.m > 0 && |regs| % 2 == 0 && Registers(b, t, s, regs) && NonNegative(regs)
    ensures Registers(b, t + 1, s, Folded(regs)) && NonNegative(Folded(regs))
  {
    var now, t' := Folded(regs), t + 1;
    forall j | 0 <= j < |now| ensures IsMax(b, t', s, j, now[j]) {
      var i, k := 2 * j, 2 * j + 1;
      assert IsMax(b, t, s, i, regs[i]) && IsMax(b, t, s, k, regs[k]);
      FoldMax(b, t, s, j, regs[i], regs[k]);
    }
  }

  // ----- filling the registers

  /** The values of the selected rows below `r`. */
  ghost function Chosen(x: seq<int>, cf: Mask, r: nat): set<int>
    requires r <= |x|
  {
    set i | 0 <= i < r && On(cf, i) :: x[i]
  }

  lemma ChosenStep(x: seq<int>, cf: Mask, r: nat, next: nat)
    requires next == r + 1 <= |x|
    ensures Chosen(x, cf, next) == if On(cf, r) then Chosen(x, cf, r) + {x[r]} else Chosen(x, cf, r)
  {
    forall v | v in Chosen(x, cf, r) ensures v in Chosen(x, cf, next) {
      var i :| 0 <= i < r && On(cf, i) && x[i] == v;
      assert 0 <= i < next;
    }
    if On(cf, r) { assert 0 <= r < next; }
  }

  /** Is a hash that determine_rho_loc refuses among the rows from `lb` to `ub`? */
  ghost predicate HasBad(b: Binning, x: seq<int>, cf: Mask, lb: nat, ub: nat)
    requires ub <= |x|
  {
    exists i :: lb <= i < ub && On(cf, i) && Bad(b.hash(x[i]))
  }

  /** determine_rho_loc. */
  method DetermineRhoLoc(h: nat, m: nat) returns (status: int, rho: nat, loc: nat)
    requires m > 0
    ensures status == if h % LOW == 0 then -1 else 0
    ensures status == 0 ==> rho == Rho(h) && loc == Loc(h, m)
    ensures status == 0 ==> exists q, low :: Splits(h, m, loc, q, low)
    ensures status == 0 ==> forall n: nat :: h % Pow2(n) == 0 <==> n < rho
  {
    BadHashes(h);
    var q, low := LocSplits(h, m);
    forall n: nat | h > 0 ensures h % Pow2(n) == 0 <==> n < Rho(h) { RhoLowestOne(h, n); }
    status, rho, loc := -1, 0, 0;
    if h == 0 { return; }
    rho := Ctz(h) + 1;
    loc := (h / 0x1000_0000_0000) % m;
    if rho > 44 { return; }
    status := 0;
  }

  ghost predicate Filled(b: Binning, s: set<int>, t: seq<int>) {
    b.m > 0 && |t| == b.m && Registers(b, 0, s, t) && NonNegative(t)
  }

  /** One hashed value (approx_unique.c:231-243). */
  method VisitHash(regs: array<int>, b: Binning, v: int, h: nat, ghost s: set<int>,
                   ghost t0: seq<int>) returns (ok: bool, ghost t: seq<int>)
    requires h == b.hash(v) && t0 == regs[..] && Filled(b, s, t0)
    modifies regs
    ensures ok == !Bad(h) && t == regs[..]
    ensures ok ==> Filled(b, s + {v}, t)
    ensures !ok ==> t == t0
  {
    BadHashes(h);
    var status, rho, loc := DetermineRhoLoc(h, regs.Length);
    if status == -1 { return false, t0; }
    RaiseKeeps(b, s, t0, v);
    if regs[loc] < rho { regs[loc] := rho; }
    t := regs[..];
    assert t == Raise(t0, Bin(b, 0, v), Rho(b.hash(v)));
    ok := true;
  }

  /** Row `r`, whose hash the first loop over the block left in the buffer. */
  method VisitRow(regs: array<int>, b: Binning, x: seq<int>, cf: Mask, r: nat, next: nat, h: nat,
                  ghost t0: seq<int>) returns (ok: bool, ghost t: seq<int>)
    requires next == r + 1 <= |x| && (On(cf, r) ==> h == b.hash(x[r])) && t0 == regs[..]
    requires Filled(b, Chosen(x, cf, r), t0)
    modifies regs
    ensures ok == !(On(cf, r) && Bad(b.hash(x[r]))) && t == regs[..]
    ensures ok ==> Filled(b, Chosen(x, cf, next), t)
  {
    ok, t := true, t0;
    ChosenStep(x, cf, r, next);
    if cf.All? || (r < |cf.bits| && cf.bits[r]) { ok, t := VisitHash(regs, b, x[r], h, Chosen(x, cf, r), t0); }
  }

  /** The first loop over a block: hashes of the selected rows, the other places keep what they held. */
  method HashBlock(hashval: array<nat>, b: Binning, x: seq<int>, cf: Mask, lb: nat, ub: nat)
    requires lb <= ub <= |x| && ub - lb <= hashval.Length
    modifies hashval
    ensures forall r :: lb <= r < ub && On(cf, r) ==> hashval[r - lb] == b.hash(x[r])
  {
    var i := 0;
    while i < ub - lb
      invariant 0 <= i <= ub - lb
      invariant forall r :: lb <= r < lb + i && On(cf, r) ==> hashval[r - lb] == b.hash(x[r])
    {
      if cf.All? || (lb + i < |cf.bits| && cf.bits[lb + i]) { hashval[i] := b.hash(x[lb + i]); }
      i := i + 1;
    }
  }

  /** One block; false when a hash was refused. */
  method FillBlock(regs: array<int>, hashval: array<nat>, b: Binning, x: seq<int>, cf: Mask, lb: nat, ub: nat,
                   ghost t0: seq<int>) returns (ok: bool, ghost t: seq<int>)
    requires lb <= ub <= |x| && ub - lb <= hashval.Length && t0 == regs[..] && Filled(b, Chosen(x, cf, lb), t0)
    modifies regs, hashval
    ensures t == regs[..] && ok == !HasBad(b, x, cf, lb, ub)
    ensures ok ==> Filled(b, Chosen(x, cf, ub), t)
  {
    HashBlock(hashval, b, x, cf, lb, ub);
    ghost var hashes := hashval[..];
    assert forall r :: lb <= r < ub && On(cf, r) ==> hashes[r - lb] == b.hash(x[r]);
    t := regs[..];
    ok := true;
    var r := lb;
    while r < ub
      invariant lb <= r <= ub && ok && t == regs[..] && hashval[..] == hashes
      invariant Filled(b, Chosen(x, cf, r), t)
      invariant !HasBad(b, x, cf, lb, r)
    {
      var next := r + 1;
      var h := hashval[r - lb];
      assert h == hashes[r - lb];
      ok, t := VisitRow(regs, b, x, cf, r, next, h, t);
      if !ok { return; }
      r := next;
    }
  }

  lemma BadSplit(b: Binning, x: seq<int>, cf: Mask, lb: nat, ub: nat)
    requires lb <= ub <= |x|
    ensures HasBad(b, x, cf, 0, ub) <==> HasBad(b, x, cf, 0, lb) || HasBad(b, x, cf, lb, ub)
  {}

  /** The rows in the first `c` blocks. */
  function RowsDone(rows: nat, c: nat): nat {
    if HASH_BLOCK * c > rows then rows else HASH_BLOCK * c
  }

  /** The loop over the blocks (approx_unique.c:208-287). */
  method Fill(regs: array<int>, b: Binning, x: seq<int>, cf: Mask, ghost t0: seq<int>)
    returns (ok: bool, ghost t: seq<int>)
    requires |x| <= INT_MAX && t0 == regs[..] && Filled(b, {}, t0)
    modifies regs
    ensures t == regs[..] && ok == !HasBad(b, x, cf, 0, |x|)
    ensures ok ==> Filled(b, Chosen(x, cf, |x|), t)
  {
    var hashval := new nat[HASH_BLOCK](_ => 0);
    ok, t := true, t0;
    var rows := |x|;
    var blocks := rows / 1048576;
    if blocks * 1048576 != rows { blocks := blocks + 1; }
    HashBlocksExact(rows);
    assert Chosen(x, cf, 0) == {};
    var c := 0;
    while c < blocks
      invariant 0 <= c <= blocks && ok && t == regs[..]
      invariant Filled(b, Chosen(x, cf, RowsDone(rows, c)), t) && !HasBad(b, x, cf, 0, RowsDone(rows, c))
    {
      assert Int32(HASH_BLOCK * c) == HASH_BLOCK * c < rows;
      var lb := Int32(HASH_BLOCK * c);
      var ub := lb + HASH_BLOCK;
      if ub > rows { ub := rows; }
      BadSplit(b, x, cf, lb, ub);
      BadSplit(b, x, cf, ub, rows);
      ok, t := FillBlock(regs, hashval, b, x, cf, lb, ub, t);
      if !ok { return; }
      c := c + 1;
    }
    assert RowsDone(rows, c) == rows;
  }

  // ----- folding in place

  method CountZeros(regs: array<int>, m: nat) returns (n: nat)
    requires m <= regs.Length
    ensures n == Zeros(regs[..m])
  {
    n := 0;
    var i := 0;
    while i < m
      invariant 0 <= i <= m && n == Zeros(regs[..i])
    {
      assert regs[..i+1][..i] == regs[..i];
      if regs[i] == 0 { n := n + 1; }
      i := i + 1;
    }
  }

  /** approx_unique.c:308-317: reads two places, writes one behind them. */
  method FoldInPlace(regs: array<int>, m: nat) returns (jj: nat)
    requires m <= regs.Length && m % 2 == 0
    modifies regs
    ensures jj == m / 2 && regs[..jj] == Folded(old(regs[..m]))
  {
    jj := 0;
    var ii := 0;
    ghost var was, half := regs[..m], Folded(regs[..m]);
    while ii < m
      invariant ii == jj + jj && 0 <= ii <= m
      invariant forall k :: ii <= k < m ==> regs[k] == was[k]
      invariant forall k :: 0 <= k < jj ==> regs[k] == half[k]
    {
      FoldedAt(was, jj, ii);
      if regs[ii] >= regs[ii+1] { regs[jj] := regs[ii]; } else { regs[jj] := regs[ii+1]; }
      jj := jj + 1;
      ii := ii + 2;
    }
  }

  lemma FoldedAt(regs: seq<int>, j: nat, i: nat)
    requires |regs| % 2 == 0 && i == j + j && i + 1 < |regs|
    ensures j < |Folded(regs)| && Folded(regs)[j] == Max(regs[i], regs[i+1])
  {}

  /** The registers after `t` foldings. */
  ghost function FoldN(regs: seq<int>, t: nat): (f: seq<int>) {
    if t == 0 then regs
    else
      var f := FoldN(regs, t - 1);
      if |f| % 2 == 0 then Folded(f) else f
  }

  ghost predicate TooEmpty(regs: seq<int>) {
    Zeros(regs) > |regs| / 100 && |regs| > MIN_BINS
  }

  const MIN_BINS := 128

  /** The state of the folding loop: as many foldings as the rule asks for so far. */
  ghost predicate Folding(b: Binning, s: set<int>, first: seq<int>, t: nat, f: seq<int>) {
    && b.m > 0 && f == FoldN(first, t) && Registers(b, t, s, f) && NonNegative(f)
    && Sized(t, |f|)
    && (forall u {:trigger AskedFor(first, u)} :: 0 <= u < t ==> AskedFor(first, u))
  }

  /** Every folding halves the number of registers, from 2^16 down to no less than 2^7. */
  ghost predicate Sized(t: nat, n: nat) {
    t <= 9 && n == Pow2(16 - t)
  }

  /** After `u` foldings the rule asks for another. */
  ghost predicate AskedFor(first: seq<int>, u: nat) {
    TooEmpty(FoldN(first, u))
  }

  lemma PowerHalves(t: nat, n: nat)
    requires Sized(t, n) && n > MIN_BINS
    ensures n % 2 == 0 && Sized(t + 1, n / 2) && n / 2 < n
  {
    PowerFacts(16 - t);
  }

  lemma PowerFacts(e: nat)
    requires e >= 7
    ensures Pow2(e) >= MIN_BINS && (Pow2(e) > MIN_BINS ==> e > 7) && Pow2(e) % 2 == 0 && Pow2(e) / 2 == Pow2(e - 1)
  {
    assert Pow2(7) == MIN_BINS by { assert Pow2(3) == 8; }
    Pow2Monotone(7, e);
  }

  lemma FoldingStep(b: Binning, s: set<int>, first: seq<int>, t: nat, f: seq<int>)
    requires Folding(b, s, first, t, f) && TooEmpty(f)
    ensures |f| % 2 == 0 && Folding(b, s, first, t + 1, Folded(f)) && |Folded(f)| < |f|
  {
    PowerHalves(t, |f|);
    FoldKeeps(b, t, s, f);
    assert FoldN(first, t + 1) == Folded(f);
    assert AskedFor(first, t);
  }

  lemma FoldingSize(b: Binning, s: set<int>, first: seq<int>, t: nat, f: seq<int>)
    requires Folding(b, s, first, t, f)
    ensures |f| >= MIN_BINS
  {
    PowerFacts(16 - t);
  }

  /** The folding loop (approx_unique.c:301-324). */
  method Fold(regs: array<int>, b: Binning, ghost s: set<int>, ghost first: seq<int>)
    returns (m: nat, zeros: nat, ghost t: nat)
    requires first == regs[..] && Folding(b, s, first, 0, first)
    modifies regs
    ensures m <= regs.Length && Folding(b, s, first, t, regs[..m]) && !TooEmpty(regs[..m]) && zeros == Zeros(regs[..m])
  {
    m, t := regs.Length, 0;
    ghost var f := first;
    assert regs[..m] == f;
    zeros := CountZeros(regs, m);
    while zeros > m / 100 && m > MIN_BINS
      invariant m <= regs.Length && f == regs[..m] && zeros == Zeros(f) && Folding(b, s, first, t, f)
      decreases m
    {
      FoldingStep(b, s, first, t, f);
      m := FoldInPlace(regs, m);
      f := regs[..m];
      t := t + 1;
      zeros := CountZeros(regs, m);
    }
  }

  const BINS := 65536

  lemma BinsPower()
    ensures BINS == Pow2(16)
  {
    Pow2Add(8, 8);
    assert Pow2(4) == 16;
    Pow2Add(4, 4);
  }

  /** Registers after the folding rule has stopped: those of the set of values `s`, folded `t` times. */
  ghost predicate Stopped(b: Binning, s: set<int>, first: seq<int>, t: nat, regs: seq<int>) {
    && Filled(b, s, first) && |first| == BINS
    && Folding(b, s, first, t, regs) && !TooEmpty(regs) && |regs| >= MIN_BINS
  }

  /**
   approx_unique up to the estimate: -1 for an empty column, -3 when a
   selected value hashes to a multiple of 2^44, else 1 or -2 by the number of
   unused registers.  The registers are those of the set of selected values
   after the first `t` for which the folding rule stops; a run that gives up
   although it could fold on has exactly one unused register in a hundred.
   From 2^31 rows on the blocks start at wrong rows (`HashBlocksExact`): such
   a call is not `defined`.
   */
  method ApproxUnique(x: seq<int>, cf: Mask, hash: int -> nat)
    returns (defined: bool, isGood: int, regs: seq<int>, ghost t: nat, ghost first: seq<int>)
    ensures defined <==> |x| <= INT_MAX
    ensures defined ==> isGood in {1, -1, -2, -3} && (x == [] <==> isGood == -1)
    ensures defined ==> (isGood == -3 <==> exists i :: 0 <= i < |x| && On(cf, i) && hash(x[i]) % LOW == 0)
    ensures defined && isGood in {1, -2} ==>
              && Stopped(Binning(hash, BINS), Chosen(x, cf, |x|), first, t, regs)
              && (isGood == 1 <==> Zeros(regs) < |regs| / 100)
              && forall j :: 0 <= j < |regs| ==> RegisterIs(hash, x, cf, t, j, regs[j])
    ensures defined && isGood == -2 && |regs| > MIN_BINS ==> Zeros(regs) == |regs| / 100
  {
    defined, isGood, regs, t, first := |x| <= INT_MAX, -1, [], 0, [];
    if !defined || |x| <= 0 { return; }
    var b := Binning(hash, BINS);
    var maxRho := new int[BINS](_ => 0);
    var ok;
    ok, first := Fill(maxRho, b, x, cf, maxRho[..]);
    BadRows(b, x, cf);
    if !ok {
      isGood := -3;
      return;
    }
    assert Folding(b, Chosen(x, cf, |x|), first, 0, first) by { BinsPower(); }
    var m, zeros;
    m, zeros, t := Fold(maxRho, b, Chosen(x, cf, |x|), first);
    regs := maxRho[..m];
    FoldingSize(b, Chosen(x, cf, |x|), first, t, regs);
    forall j | 0 <= j < |regs| ensures RegisterIs(hash, x, cf, t, j, regs[j]) {
      RegisterMeaning(b, x, cf, t, regs, j);
    }
    isGood := if zeros < m / 100 then 1 else -2;
  }

  /** `rho` is the position of the lowest 1 of the hash, counted from 1. */
  ghost predicate LowestOne(h: nat, rho: int) {
    rho >= 1 && h % Pow2(rho - 1) == 0 && h % Pow2(rho) != 0
  }

  /** Bits 44 to 59 of the hash, divided by 2^t, are `j`. */
  ghost predicate FallsInto(h: nat, t: nat, j: int) {
    exists l: nat, q, low :: Splits(h, 65536, l, q, low) && l / Pow2(t) == j
  }

  /** Register `j` after `t` foldings, from the rows alone: the greatest position in its bin, 0 if the bin is empty. */
  ghost predicate RegisterIs(hash: int -> nat, x: seq<int>, cf: Mask, t: nat, j: int, v: int) {
    && (forall i, rho :: 0 <= i < |x| && On(cf, i) && FallsInto(hash(x[i]), t, j) && LowestOne(hash(x[i]), rho) ==>
          rho <= v)
    && (v == 0 || exists i :: 0 <= i < |x| && On(cf, i) && FallsInto(hash(x[i]), t, j) && LowestOne(hash(x[i]), v))
  }

  lemma BinIsFallsInto(b: Binning, t: nat, v: int, j: int)
    requires b.m == BINS
    ensures Bin(b, t, v) == j <==> FallsInto(b.hash(v), t, j)
  {
    var h := b.hash(v);
    var q, low := LocSplits(h, BINS);
    BinClosed(b, t, v);
    assert Splits(h, 65536, Loc(h, BINS), q, low);
    forall l: nat, q', low' | Splits(h, 65536, l, q', low') ensures l == Loc(h, BINS) {
      SplitUnique(h, BINS, l, q', low');
    }
  }

  lemma RhoIsLowestOne(h: nat, rho: int)
    requires h > 0
    ensures LowestOne(h, rho) <==> rho == Rho(h)
  {
    if rho >= 1 {
      RhoLowestOne(h, rho - 1);
      RhoLowestOne(h, rho);
    }
  }

  lemma RegisterMeaning(b: Binning, x: seq<int>, cf: Mask, t: nat, regs: seq<int>, j: nat)
    requires b.m == BINS && Registers(b, t, Chosen(x, cf, |x|), regs) && j < |regs|
    requires forall i :: 0 <= i < |x| && On(cf, i) ==> b.hash(x[i]) > 0
    ensures RegisterIs(b.hash, x, cf, t, j, regs[j])
  {
    var s, v := Chosen(x, cf, |x|), regs[j];
    assert IsMax(b, t, s, j, v);
    forall i, rho | 0 <= i < |x| && On(cf, i) && FallsInto(b.hash(x[i]), t, j) && LowestOne(b.hash(x[i]), rho)
      ensures rho <= v
    {
      BinIsFallsInto(b, t, x[i], j);
      RhoIsLowestOne(b.hash(x[i]), rho);
      assert x[i] in s;
    }
    if v != 0 {
      var u :| u in s && Bin(b, t, u) == j && Rho(b.hash(u)) == v;
      var i :| 0 <= i < |x| && On(cf, i) && x[i] == u;
      BinIsFallsInto(b, t, u, j);
      RhoIsLowestOne(b.hash(u), v);
    }
  }

  /**
   Two runs with the same hash over the same set of selected values end with
   the same registers after the same foldings, hence with the same verdict:
   order, repetition and position do not matter.
   */
  lemma SameSetSameOutcome(b: Binning, s: set<int>, first: seq<int>, t: nat, regs: seq<int>, first': seq<int>, t': nat,
                           regs': seq<int>)
    requires Stopped(b, s, first, t, regs) && Stopped(b, s, first', t', regs')
    ensures first == first' && t == t' && regs == regs'
  {
    RegistersUnique(b, 0, s, first, first');
    assert t < t' ==> AskedFor(first, t);
    assert t' < t ==> AskedFor(first, t');
  }

  lemma BadRows(b: Binning, x: seq<int>, cf: Mask)
    ensures HasBad(b, x, cf, 0, |x|) <==> exists i :: 0 <= i < |x| && On(cf, i) && b.hash(x[i]) % LOW == 0
  {
    forall i | 0 <= i < |x| ensures Bad(b.hash(x[i])) <==> b.hash(x[i]) % LOW == 0 { BadHashes(b.hash(x[i])); }
  }

  // ----- a column on which the call gives up too early

  const VALUES := 64881

  /** Bins of the values 0 to 64880: all but the even ones below 1310, which are 655 of 65536. */
  function ExampleBin(v: int): nat {
    if 0 <= v < 655 then 2 * v + 1 else if 655 <= v < VALUES then v + 655 else 0
  }

  function ExampleHash(v: int): nat { ExampleBin(v) * LOW + 1 }

  lemma ExampleHashFacts(b: Binning, v: int)
    requires b == Binning(ExampleHash, BINS) && 0 <= v < VALUES
    ensures Rho(b.hash(v)) == 1 && Bin(b, 0, v) == ExampleBin(v) && ExampleHash(v) % LOW != 0
  {
    QuotientUnique(ExampleHash(v), ExampleBin(v), 1, LOW);
    assert ExampleHash(v) % 2 == 1;
  }

  /** The registers of that column. */
  lemma ExampleRegisters(b: Binning, s: set<int>, regs: seq<int>, j: nat)
    requires b == Binning(ExampleHash, BINS) && (forall v :: v in s <==> 0 <= v < VALUES)
    requires Registers(b, 0, s, regs) && |regs| == BINS && j < BINS
    ensures regs[j] == if j % 2 == 0 && j < 1310 then 0 else 1
  {
    forall v | v in s ensures Rho(b.hash(v)) == 1 && Bin(b, 0, v) == ExampleBin(v) { ExampleHashFacts(b, v); }
    assert IsMax(b, 0, s, j, regs[j]);
    if j % 2 == 0 && j < 1310 {
      ZeroUnused(b, 0, s, regs, j);
    } else {
      var v := if j < 1310 then j / 2 else j - 655;
      assert v in s && ExampleBin(v) == j;
    }
  }

  lemma {:induction false} EvenZeros(regs: seq<int>, n: nat)
    requires n <= |regs| && forall j :: 0 <= j < |regs| ==> (regs[j] == 0 <==> j % 2 == 0 && j < 1310)
    ensures Zeros(regs[..n]) == if n <= 1310 then (n + 1) / 2 else 655
  {
    if n > 0 {
      EvenZeros(regs, n - 1);
      assert regs[..n][..n-1] == regs[..n-1];
    }
  }

  /**
   The column 0, 1, ..., 64880 with that hash: whatever run, it stops without
   folding at 655 unused registers and is refused with -2, although folding
   once would leave none unused.
   */
  lemma GivesUpOnColumn(x: seq<int>, first: seq<int>, t: nat, regs: seq<int>)
    requires x == seq(VALUES, i => i) && Stopped(Binning(ExampleHash, BINS), Chosen(x, All, |x|), first, t, regs)
    ensures |regs| == BINS && !(Zeros(regs) < |regs| / 100)
    ensures |regs| % 2 == 0 && Zeros(Folded(regs)) == 0 < |Folded(regs)| / 100
  {
    var b, s := Binning(ExampleHash, BINS), Chosen(x, All, |x|);
    forall v | 0 <= v < VALUES ensures v in s { assert x[v] == v; }
    forall j | 0 <= j < BINS ensures first[j] == if j % 2 == 0 && j < 1310 then 0 else 1 {
      ExampleRegisters(b, s, first, j);
    }
    EvenZeros(first, BINS);
    assert first[..BINS] == first;
    assert t > 0 ==> AskedFor(first, 0);
    FoldedFull(first);
  }

  lemma FoldedFull(regs: seq<int>)
    requires |regs| % 2 == 0 && forall j :: 0 <= j < |regs| ==> regs[j] == if j % 2 == 0 && j < 1310 then 0 else 1
    ensures Zeros(Folded(regs)) == 0
  {
    var f := Folded(regs);
    forall j | 0 <= j < |f| ensures f[j] != 0 {
      assert f[j] == Max(regs[2*j], regs[2*j+1]) && regs[2*j+1] == 1;
    }
    ZerosNone(f);
  }
}
