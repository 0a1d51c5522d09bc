/**
 Bit-packed columns: packing (q-base/src/conv_I1_to_B.c), unpacking
 (q-base/src/conv_B_to_I1.c) and the sum over a range of rows by words,
 bytes and a masked last byte (q-base/src/f_to_s_sum_B.c).
 */
module BitColumns {
  import opened Arithmetic
  import opened BufferParams

  predicate IsBits(v: seq<int>) { forall i :: 0 <= i < |v| ==> 0 <= v[i] <= 1 }

  predicate IsBytes(x: seq<int>) { forall i :: 0 <= i < |x| ==> 0 <= x[i] < 256 }

  /** The number whose binary digits, lowest first, are `v`. */
  function Number(v: seq<int>): int {
    if v == [] then 0 else v[0] + 2 * Number(v[1..])
  }

  /** Binary digit `j` of `b`. */
  function Digit(b: int, j: nat): int
    decreases j
  {
    if j == 0 then b % 2 else Digit(b / 2, j - 1)
  }

  lemma {:induction false} DigitOfNumber(v: seq<int>, j: nat)
    requires IsBits(v) && j < |v|
    ensures Digit(Number(v), j) == v[j]
    decreases j
  {
    var n := Number(v[1..]);
    Halved(v[0], n);
    if j > 0 { DigitOfNumber(v[1..], j - 1); }
  }

  lemma Halved(b: int, n: int)
    requires 0 <= b <= 1
    ensures (b + 2 * n) / 2 == n && (b + 2 * n) % 2 == b
  {}

  /** Setting the next higher digit. */
  lemma {:induction false} NumberSnoc(v: seq<int>, b: int)
    ensures Number(v + [b]) == Number(v) + b * Pow2(|v|)
  {
    if v == [] {
      assert v + [b] == [b];
    } else {
      NumberSnoc(v[1..], b);
      assert (v + [b])[1..] == v[1..] + [b];
      Distribute(b, Pow2(|v| - 1));
    }
  }

  lemma Distribute(b: int, p: int)
    ensures 2 * (b * p) == b * (p + p)
  {}

  // ----- columns

  function Rounded(n: nat): nat { if n % 8 == 0 then n / 8 else n / 8 + 1 }

  /** Where byte `k` of `n` rows ends. */
  function ByteEnd(n: nat, k: nat): nat { if 8 * k + 8 <= n then 8 * k + 8 else n }

  /** Byte `k` of a packed column. */
  function PackedByte(v: seq<int>, k: nat): int
    requires k < Rounded(|v|)
  {
    Number(v[8*k..ByteEnd(|v|, k)])
  }

  function Packed(v: seq<int>): (x: seq<int>)
    ensures |x| == Rounded(|v|)
  {
    seq(Rounded(|v|), k requires 0 <= k < Rounded(|v|) => PackedByte(v, k))
  }

  /** Row `i` of a packed column. */
  function Bit(x: seq<int>, i: nat): int
    requires i < 8 * |x|
  {
    Digit(x[i/8], i % 8)
  }

  lemma {:induction false} DigitClosed(b: nat, j: nat)
    ensures Digit(b, j) == b / Pow2(j) % 2
    decreases j
  {
    if j > 0 {
      DigitClosed(b / 2, j - 1);
      HalfFirst(b, Pow2(j - 1));
    }
  }

  lemma HalfFirst(b: nat, p: nat)
    requires p > 0
    ensures b / 2 / p == b / (p + p)
  {
    var q, r := b / 2 / p, b / 2 % p;
    Division(b / 2, p);
    assert (p + p) * q == 2 * (p * q);
    QuotientUnique(b, q, 2 * r + b % 2, p + p);
  }

  /** Row `i` is bit i % 8, counted from the lowest, of byte i / 8. */
  lemma BitIs(x: seq<int>, i: nat)
    requires IsBytes(x) && i < 8 * |x|
    ensures Bit(x, i) == x[i/8] / Pow2(i % 8) % 2
  {
    DigitClosed(x[i/8], i % 8);
  }

  /** A whole byte of a packed column, and its last one. */
  lemma PackedIs(v: seq<int>, k: nat)
    requires 8 * k + 8 <= |v|
    ensures Packed(v)[k] == v[8*k] + 2 * v[8*k+1] + 4 * v[8*k+2] + 8 * v[8*k+3]
                          + 16 * v[8*k+4] + 32 * v[8*k+5] + 64 * v[8*k+6] + 128 * v[8*k+7]
  {
    var w := v[8*k..8*k+8];
    EightDigits(w);
  }

  lemma EightDigits(w: seq<int>)
    requires |w| == 8
    ensures Number(w) == w[0] + 2 * w[1] + 4 * w[2] + 8 * w[3] + 16 * w[4] + 32 * w[5] + 64 * w[6] + 128 * w[7]
  {
    FourDigits(w[4..]);
    assert w[1..][1..] == w[2..] && w[2..][1..] == w[3..] && w[3..][1..] == w[4..];
    assert Number(w[3..]) == w[3] + 2 * Number(w[4..]);
    assert Number(w[2..]) == w[2] + 2 * Number(w[3..]);
    assert Number(w[1..]) == w[1] + 2 * Number(w[2..]);
  }

  lemma FourDigits(w: seq<int>)
    requires |w| == 4
    ensures Number(w) == w[0] + 2 * w[1] + 4 * w[2] + 8 * w[3]
  {
    assert w[1..][1..] == w[2..] && w[2..][1..] == w[3..] && w[3..][1..] == [];
    assert Number(w[3..]) == w[3];
    assert Number(w[2..]) == w[2] + 2 * Number(w[3..]);
    assert Number(w[1..]) == w[1] + 2 * Number(w[2..]);
  }

  /** Unpacking the packed bits gives the vector back; padding bytes do not matter. */
  lemma UnpackPacked(v: seq<int>, pad: seq<int>, i: nat)
    requires IsBits(v) && i < |v|
    ensures Bit(Packed(v) + pad, i) == v[i]
  {
    var k, j := i / 8, i % 8;
    var w := v[8*k..ByteEnd(|v|, k)];
    assert w[j] == v[i];
    DigitOfNumber(w, j);
  }

  /** The inner loop of conv_I1_to_B: the number of `n` digits from `xi` on. */
  method PackDigits(v: seq<int>, xi: nat, n: nat) returns (b: int)
    requires IsBits(v) && xi + n <= |v|
    ensures b == Number(v[xi..xi+n])
  {
    b := 0;
    var j, p := 0, 1;
    while j < n
      invariant 0 <= j <= n && b == Number(v[xi..xi+j]) && p == Pow2(j)
    {
      NumberSnoc(v[xi..xi+j], v[xi+j]);
      assert v[xi..xi+j+1] == v[xi..xi+j] + [v[xi+j]];
      b := b + v[xi+j] * p; // or-ing a shifted 0 or 1 into unset bits
      j, p := j + 1, p + p;
    }
  }

  /** conv_I1_to_B; its two checks on the final indices never fail. */
  method Pack(v: seq<int>, y: array<int>) returns (status: int)
    requires IsBits(v) && y.Length >= Rounded(|v|)
    modifies y
    ensures status == 0 && y[..Rounded(|v|)] == Packed(v)
    ensures forall k :: Rounded(|v|) <= k < y.Length ==> y[k] == old(y[k])
  {
    var xi, yi, n := 0, 0, |v| / 8 * 8;
    while xi < n
      invariant xi == 8 * yi && 0 <= xi <= n && yi <= y.Length
      invariant forall k :: 0 <= k < yi ==> y[k] == PackedByte(v, k)
      invariant forall k :: yi <= k < y.Length ==> y[k] == old(y[k])
    {
      var b := PackDigits(v, xi, 8);
      assert b == PackedByte(v, yi);
      y[yi] := b;
      xi, yi := xi + 8, yi + 1;
    }
    if xi < |v| {
      var b := PackDigits(v, xi, |v| - n);
      assert b == PackedByte(v, yi);
      y[yi] := b;
      xi, yi := |v|, yi + 1;
    }
    var bytes := if |v| % 8 == 0 then |v| / 8 else |v| / 8 + 1;
    status := if xi != |v| || yi != bytes then -1 else 0;
  }

  /** The inner loop of conv_B_to_I1: the `n` lowest digits of a byte to the places from `yi` on. */
  method UnpackDigits(b: int, n: nat, y: array<int>, yi: nat)
    requires b >= 0 && yi + n <= y.Length
    modifies y
    ensures forall k :: 0 <= k < n ==> y[yi+k] == Digit(b, k)
    ensures forall k :: 0 <= k < y.Length && !(yi <= k < yi + n) ==> y[k] == old(y[k])
  {
    var j, u := 0, b;
    while j < n
      invariant 0 <= j <= n && u >= 0
      invariant forall m: nat :: Digit(u, m) == Digit(b, j + m)
      invariant forall k :: 0 <= k < j ==> y[yi+k] == Digit(b, k)
      invariant forall k :: 0 <= k < y.Length && !(yi <= k < yi + j) ==> y[k] == old(y[k])
    {
      assert Digit(u, 0) == Digit(b, j);
      if u % 2 == 1 { y[yi+j] := 1; } else { y[yi+j] := 0; }
      forall m: nat ensures Digit(u / 2, m) == Digit(b, j + 1 + m) {
        assert Digit(u, m + 1) == Digit(b, j + (m + 1));
      }
      u := u / 2;
      j := j + 1;
    }
  }

  lemma BitInByte(x: seq<int>, k: nat, j: nat)
    requires k < |x| && j < 8
    ensures Bit(x, 8 * k + j) == Digit(x[k], j)
  {}

  /** conv_B_to_I1 for `n` rows. */
  method Unpack(x: seq<int>, n: nat, y: array<int>) returns (status: int)
    requires IsBytes(x) && n <= 8 * |x| && y.Length >= n
    modifies y
    ensures status == 0 && forall i :: 0 <= i < n ==> y[i] == Bit(x, i)
    ensures forall i :: 0 <= i < n ==> y[i] == x[i/8] / Pow2(i % 8) % 2
  {
    forall i | 0 <= i < n ensures Bit(x, i) == x[i/8] / Pow2(i % 8) % 2 { BitIs(x, i); }
    var xi, yi, m := 0, 0, n / 8 * 8;
    while yi < m
      invariant yi == 8 * xi && 0 <= yi <= m
      invariant forall i :: 0 <= i < yi ==> y[i] == Bit(x, i)
    {
      UnpackRows(x, xi, 8, y);
      yi, xi := yi + 8, xi + 1;
    }
    if xi != yi / 8 { return -1; }
    if yi < n {
      UnpackRows(x, xi, n - m, y);
      yi := n;
    }
    status := if yi != n then -1 else 0;
  }

  /** One round of either loop of conv_B_to_I1. */
  method UnpackRows(x: seq<int>, xi: nat, n: nat, y: array<int>)
    requires IsBytes(x) && xi < |x| && 0 < n <= 8 && 8 * xi + n <= y.Length
    requires forall i :: 0 <= i < 8 * xi ==> y[i] == Bit(x, i)
    modifies y
    ensures forall i :: 0 <= i < 8 * xi + n ==> y[i] == Bit(x, i)
  {
    UnpackDigits(x[xi], n, y, 8 * xi);
    forall i | 0 <= i < 8 * xi + n ensures y[i] == Bit(x, i) {
      if i >= 8 * xi {
        var k := i - 8 * xi;
        assert y[8 * xi + k] == Digit(x[xi], k);
        BitInByte(x, xi, k);
      }
    }
  }

  // ----- sums

  /** The sum of rows `lb` to `ub`. */
  function SumBits(x: seq<int>, lb: nat, ub: nat): int
    requires ub <= 8 * |x|
  {
    if ub <= lb then 0 else SumBits(x, lb, ub - 1) + Bit(x, ub - 1)
  }

  lemma {:induction false} SumSplit(x: seq<int>, a: nat, b: nat, c: nat)
    requires a <= b <= c <= 8 * |x|
    ensures SumBits(x, a, c) == SumBits(x, a, b) + SumBits(x, b, c)
    decreases c
  {
    if b < c { SumSplit(x, a, b, c - 1); }
  }

  /** Bit i % 8 of byte i / 8 is set. */
  ghost predicate IsOne(x: seq<int>, i: nat)
    requires i < 8 * |x|
  {
    x[i/8] / Pow2(i % 8) % 2 == 1
  }

  /** The number of rows whose bit is set. */
  lemma {:induction false} SumIsNumber(x: seq<int>, lb: nat, ub: nat)
    requires IsBytes(x) && lb <= ub <= 8 * |x|
    ensures SumBits(x, lb, ub) == |set i: nat | lb <= i < ub && IsOne(x, i)|
    decreases ub
  {
    if lb < ub {
      var m := ub - 1;
      SumIsNumber(x, lb, m);
      BitIs(x, m);
      OneMoreBit(x, lb, m, ub);
    }
  }

  lemma OneMoreBit(x: seq<int>, lb: nat, m: nat, ub: nat)
    requires lb <= m < ub == m + 1 <= 8 * |x|
    ensures |set i: nat | lb <= i < ub && IsOne(x, i)|
         == |set i: nat | lb <= i < m && IsOne(x, i)| + if IsOne(x, m) then 1 else 0
  {
    assert (set i: nat | lb <= i < ub && IsOne(x, i))
        == (set i: nat | lb <= i < m && IsOne(x, i)) + if IsOne(x, m) then {m} else {};
  }

  function RowTotal(v: seq<int>, lb: nat, ub: nat): int
    requires ub <= |v|
  {
    if ub <= lb then 0 else RowTotal(v, lb, ub - 1) + v[ub-1]
  }

  /** On a packed vector it is the sum of the entries. */
  lemma {:induction false} SumOfPacked(v: seq<int>, pad: seq<int>, lb: nat, ub: nat)
    requires IsBits(v) && ub <= |v|
    ensures SumBits(Packed(v) + pad, lb, ub) == RowTotal(v, lb, ub)
    decreases ub
  {
    if lb < ub {
      SumOfPacked(v, pad, lb, ub - 1);
      UnpackPacked(v, pad, ub - 1);
    }
  }

  /** __builtin_popcount and __builtin_popcountll. */
  function Pop(w: nat): nat {
    if w == 0 then 0 else w % 2 + Pop(w / 2)
  }

  lemma {:induction false} PopZero(w: nat)
    ensures Pop(w) == 0 <==> w == 0
  {
    if w > 0 { PopZero(w / 2); }
  }

  /** The lowest bit apart from the others. */
  lemma PopLow(w: nat, r: nat, h: nat)
    requires w == r + 2 * h && r <= 1
    ensures Pop(w) == r + Pop(h)
  {
    Halved(r, h);
    PopStep(w);
  }

  /** w << j. */
  function Shift(w: nat, j: nat): nat {
    if j == 0 then w else 2 * Shift(w, j - 1)
  }

  /** Bits below position `j` apart from those above. */
  lemma {:induction false} PopSplit(b: nat, j: nat, w: nat)
    requires b < Pow2(j)
    ensures Pop(b + Shift(w, j)) == Pop(b) + Pop(w)
    decreases j
  {
    if j > 0 {
      var r, c := LowBit(b);
      PopSplit(c, j - 1, w);
      PopAbove(b, r, c, Shift(w, j - 1), Pop(w));
    }
  }

  lemma LowBit(b: nat) returns (r: nat, c: nat)
    ensures b == r + 2 * c && r <= 1
  {
    r, c := b % 2, b / 2;
  }

  lemma PopAbove(b: nat, r: nat, c: nat, m: nat, n: nat)
    requires b == r + 2 * c && r <= 1 && Pop(c + m) == Pop(c) + n
    ensures Pop(b + 2 * m) == Pop(b) + n
  {
    PopLow(b + 2 * m, r, c + m);
    PopLow(b, r, c);
  }

  lemma Doubled(p: nat, w: nat)
    ensures (p + p) * w == 2 * (p * w)
  {}

  lemma PopStep(w: nat)
    ensures Pop(w) == w % 2 + Pop(w / 2)
  {}

  function DigitSum(b: nat, n: nat): int {
    if n == 0 then 0 else DigitSum(b, n - 1) + Digit(b, n - 1)
  }

  lemma {:induction false} DigitSumLow(b: nat, n: nat)
    requires n > 0
    ensures DigitSum(b, n) == b % 2 + DigitSum(b / 2, n - 1)
  {
    if n > 1 { DigitSumLow(b, n - 1); }
  }

  lemma {:induction false} DigitSumPop(b: nat, n: nat)
    requires b < Pow2(n)
    ensures DigitSum(b, n) == Pop(b) <= n
    decreases n
  {
    if n > 0 {
      DigitSumPop(b / 2, n - 1);
      DigitSumLow(b, n);
      PopStep(b);
    }
  }

  /** Masking keeps the low digits. */
  lemma {:induction false} MaskedDigits(b: nat, n: nat)
    ensures DigitSum(b, n) == DigitSum(b % Pow2(n), n)
    decreases n
  {
    if n > 0 {
      MaskedDigits(b / 2, n - 1);
      DigitSumLow(b, n);
      DigitSumLow(b % Pow2(n), n);
      HalfRemainder(b, Pow2(n - 1));
    }
  }

  lemma HalfRemainder(b: nat, p: nat)
    requires p > 0
    ensures b % (p + p) % 2 == b % 2 && b % (p + p) / 2 == b / 2 % p
  {
    var q, r := b / (p + p), b % (p + p);
    assert b == (p + p) * q + r;
    Doubled(p, q);
    assert b / 2 == p * q + r / 2;
    RemainderUnique(q, r / 2, p);
  }

  lemma {:induction false} SumInByte(x: seq<int>, k: nat, n: nat)
    requires IsBytes(x) && k < |x| && n <= 8
    ensures SumBits(x, 8 * k, 8 * k + n) == DigitSum(x[k], n)
  {
    if n > 0 {
      SumInByte(x, k, n - 1);
      BitInByte(x, k, n - 1);
    }
  }

  lemma BytePower()
    ensures Pow2(8) == 256 && Pow2(7) == 128
  {
    assert Pow2(4) == 16;
  }

  lemma ByteShift(w: nat)
    ensures Shift(w, 8) == 256 * w && Shift(w, 7) == 128 * w
  {
    assert Shift(w, 1) == 2 * w && Shift(w, 2) == 4 * w && Shift(w, 3) == 8 * w && Shift(w, 4) == 16 * w;
    assert Shift(w, 5) == 32 * w && Shift(w, 6) == 64 * w;
  }

  lemma ByteSum(x: seq<int>, k: nat)
    requires IsBytes(x) && k < |x|
    ensures SumBits(x, 8 * k, 8 * k + 8) == Pop(x[k]) <= 8
  {
    BytePower();
    SumInByte(x, k, 8);
    DigitSumPop(x[k], 8);
  }

  /** A byte as a C char is negative from 128 on; then its top bit is counted apart (f_to_s_sum_B.c:137-144). */
  function CharPop(b: nat): nat
    requires b < 256
  {
    if b >= 128 then 1 + Pop(b - 128) else Pop(b)
  }

  lemma CharPopIsPop(b: nat)
    requires b < 256
    ensures CharPop(b) == Pop(b)
  {
    if b >= 128 {
      BytePower();
      ByteShift(1);
      PopSplit(b - 128, 7, 1);
      assert Pop(1) == 1 by { PopStep(1); }
    }
  }

  /** Bytes read as one little-endian number. */
  function Word(bytes: seq<int>): nat
    requires IsBytes(bytes)
  {
    if bytes == [] then 0 else bytes[0] + 256 * Word(bytes[1..])
  }

  /** The set bits of bytes `p` to `q`. */
  function ByteSums(x: seq<int>, p: nat, q: nat): nat
    requires IsBytes(x) && q <= |x|
  {
    if q <= p then 0 else ByteSums(x, p, q - 1) + Pop(x[q-1])
  }

  lemma {:induction false} ByteSumsSplit(x: seq<int>, a: nat, b: nat, c: nat)
    requires IsBytes(x) && a <= b <= c <= |x|
    ensures ByteSums(x, a, c) == ByteSums(x, a, b) + ByteSums(x, b, c)
    decreases c
  {
    if b < c { ByteSumsSplit(x, a, b, c - 1); }
  }

  lemma {:induction false} ByteSumsAreBits(x: seq<int>, p: nat, q: nat)
    requires IsBytes(x) && p <= q <= |x|
    ensures SumBits(x, 8 * p, 8 * q) == ByteSums(x, p, q)
    decreases q
  {
    if p < q {
      var k := q - 1;
      ByteSumsAreBits(x, p, k);
      SumSplit(x, 8 * p, 8 * k, 8 * k + 8);
      ByteSum(x, k);
    }
  }

  lemma {:induction false} WordSum(x: seq<int>, p: nat, q: nat)
    requires IsBytes(x) && p <= q <= |x|
    ensures ByteSums(x, p, q) == Pop(Word(x[p..q]))
    decreases q - p
  {
    if p < q {
      WordSum(x, p + 1, q);
      ByteSumsSplit(x, p, p + 1, q);
      BytePower();
      assert x[p..q][1..] == x[p+1..q];
      ByteShift(Word(x[p+1..q]));
      PopSplit(x[p], 8, Word(x[p+1..q]));
    }
  }

  /** The part handled as 64-bit words (f_to_s_sum_B.c:117-129), from byte `p`. */
  method SumWords(x: seq<int>, p: nat, n: nat) returns (status: int, rslt: int)
    requires IsBytes(x) && p + 8 * n <= |x|
    ensures status == 0 && rslt == ByteSums(x, p, p + 8 * n)
  {
    status, rslt := 0, 0;
    var i := 0;
    while i < n
      invariant 0 <= i <= n && status == 0 && rslt == ByteSums(x, p, p + 8 * i)
    {
      var k := p + 8 * i;
      var next := k + 8;
      var w := Word(x[k..next]);
      var part := Pop(w);
      PopZero(w);
      WordSum(x, k, next);
      ByteSumsSplit(x, p, k, next);
      rslt := rslt + part;
      if (w == 0 && part > 0) || (w != 0 && part == 0) { return -1, rslt; }
      i := i + 1;
    }
  }

  /** Whole bytes after the last word boundary (f_to_s_sum_B.c:136-153), from byte `p`. */
  method SumBytes(x: seq<int>, p: nat, n: nat) returns (status: int, rslt: int)
    requires IsBytes(x) && p + n <= |x|
    ensures status == 0 && rslt == ByteSums(x, p, p + n)
  {
    status, rslt := 0, 0;
    var i := 0;
    while i < n
      invariant 0 <= i <= n && status == 0 && rslt == ByteSums(x, p, p + i)
    {
      var b := x[p+i];
      var part := if b >= 128 then 1 + Pop(b - 128) else Pop(b); // a char is negative from 128 on
      CharPopIsPop(b);
      PopZero(b);
      ByteSum(x, p + i);
      if part > 8 { return -1, rslt; }
      rslt := rslt + part;
      if (b == 0 && part > 0) || (b != 0 && part == 0) { return -1, rslt; }
      i := i + 1;
    }
  }

  /** How a range from a word boundary divides into words, bytes and bits. */
  lemma Layout(lb: nat, ub: nat, size: nat)
    requires lb <= ub <= 8 * size && lb % 64 == 0
    ensures var ub2 := ub / 64 * 64;
            var left := ub - ub2;
            var p, p2, words, bytes := lb / 8, ub2 / 8, (ub2 - lb) / 64, left / 8;
            var n := left - 8 * bytes;
            && lb <= ub2 && 8 * p == lb && p2 == p + 8 * words && 0 <= n < 8 && ub == 8 * (p2 + bytes) + n
            && p2 + bytes <= size && (n > 0 ==> p2 + bytes < size)
  {
    var a, c := lb / 64, ub / 64;
    assert lb == 64 * a && a <= c && 64 * c <= ub;
    assert 64 * a / 8 == 8 * a && 64 * c / 8 == 8 * c && (64 * c - 64 * a) / 64 == c - a;
  }

  lemma WholeRange(x: seq<int>, p: nat, p2: nat, k: nat, n: nat)
    requires IsBytes(x) && p <= p2 <= k && n < 8 && 8 * k + n <= 8 * |x|
    ensures SumBits(x, 8 * p, 8 * k + n) ==
        ByteSums(x, p, p2) + ByteSums(x, p2, k) + if n > 0 then Pop(x[k] % Pow2(n)) else 0
  {
    ByteSumsSplit(x, p, p2, k);
    RangeSum(x, p, k, n);
  }

  lemma RangeSum(x: seq<int>, p: nat, k: nat, n: nat)
    requires IsBytes(x) && p <= k && n < 8 && 8 * k + n <= 8 * |x|
    ensures SumBits(x, 8 * p, 8 * k + n) == ByteSums(x, p, k) + if n > 0 then Pop(x[k] % Pow2(n)) else 0
  {
    ByteSumsAreBits(x, p, k);
    if n > 0 {
      TailSum(x, k, n);
      SumSplit(x, 8 * p, 8 * k, 8 * k + n);
    }
  }

  lemma TailSum(x: seq<int>, k: nat, n: nat)
    requires IsBytes(x) && k < |x| && n <= 8
    ensures SumBits(x, 8 * k, 8 * k + n) == Pop(x[k] % Pow2(n))
  {
    SumInByte(x, k, n);
    MaskedDigits(x[k], n);
    DigitSumPop(x[k] % Pow2(n), n);
  }

  /** f_to_s_sum_B from a word boundary adds to the running result; none of its checks fails. */
  method SumB(x: seq<int>, lb: nat, ub: nat, before: int) returns (status: int, result: int)
    requires IsBytes(x) && lb <= ub <= 8 * |x| && lb % 64 == 0
    ensures status == 0 && result == before + SumBits(x, lb, ub)
    ensures result == before + |set i: nat | lb <= i < ub && IsOne(x, i)|
  {
    SumIsNumber(x, lb, ub);
    var ub2 := ub / 64 * 64;
    var left := ub - ub2;
    var p, p2, words, bytes := lb / 8, ub2 / 8, (ub2 - lb) / 64, left / 8;
    var n := left - 8 * bytes;
    Layout(lb, ub, |x|);
    var rslt;
    status, rslt := SumParts(x, p, words, p2, bytes, n);
    result := if status < 0 then before else before + rslt;
  }

  /** Words, then bytes, then the first `n` bits of one more byte. */
  method SumParts(x: seq<int>, p: nat, words: nat, p2: nat, bytes: nat, n: nat) returns (status: int, rslt: int)
    requires IsBytes(x) && p2 == p + 8 * words && n < 8 && 8 * (p2 + bytes) + n <= 8 * |x|
    ensures status == 0 && rslt == SumBits(x, 8 * p, 8 * (p2 + bytes) + n)
  {
    var part;
    status, rslt := SumWords(x, p, words);
    if status < 0 { return; }
    status, part := SumBytes(x, p2, bytes);
    if status < 0 { return; }
    rslt := rslt + part;
    var tail := if n > 0 then Pop(x[p2 + bytes] % Pow2(n)) else 0; // mask_byte_R
    WholeRange(x, p, p2, p2 + bytes, n);
    rslt := rslt + tail;
  }
}
