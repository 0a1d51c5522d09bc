/**
 The open-addressing counter of q-base/src/count_ht.c: linear probing with
 wrap-around, one slot per distinct key.
 */
module CountHt {
  import opened Arithmetic
  import opened Blocks
  import opened Masks

  datatype Slot = Slot(key: int, cnt: int)

  const EMPTY := Slot(0, 0)

  /** Home positions: mix_I8 of a key, reduced to the table size. */
  ghost predicate HomesIn(home: int -> nat, sz: nat) {
    forall v :: home(v) < sz
  }

  predicate Taken(s: Slot) { s.cnt > 0 }

  /** Is `k` probed before `i` when the probing starts at `h`? */
  predicate Before(h: int, i: int, k: int) {
    if h <= i then h <= k < i else k >= h || k < i
  }

  // ----- the invariant, part by part

  ghost predicate Clean(ht: seq<Slot>) {
    |ht| > 0 && forall i :: 0 <= i < |ht| ==> ht[i].cnt >= 0 && (ht[i].cnt == 0 ==> ht[i] == EMPTY)
  }

  /** Slot `i` can be reached from the home of its key through taken slots. */
  ghost predicate Reached(ht: seq<Slot>, home: int -> nat, i: int)
    requires 0 <= i < |ht|
  {
    forall k :: 0 <= k < |ht| && Before(home(ht[i].key), i, k) ==> Taken(ht[k])
  }

  ghost predicate Reachable(ht: seq<Slot>, home: int -> nat) {
    forall i {:trigger Reached(ht, home, i)} :: 0 <= i < |ht| && Taken(ht[i]) ==> Reached(ht, home, i)
  }

  /** The key of slot `i` is in no other slot. */
  ghost predicate OnlyAt(ht: seq<Slot>, i: int)
    requires 0 <= i < |ht|
  {
    forall j :: 0 <= j < |ht| && j != i && Taken(ht[j]) ==> ht[j].key != ht[i].key
  }

  /** A key has one slot. */
  ghost predicate Distinct(ht: seq<Slot>) {
    forall i {:trigger OnlyAt(ht, i)} :: 0 <= i < |ht| && Taken(ht[i]) ==> OnlyAt(ht, i)
  }

  /** A slot counts how often its key was seen; key 0 got one more at its first sight (count_ht.c:197-202). */
  ghost predicate Tallied(s: Slot, seen: multiset<int>) {
    && s.key in seen
    && (s.key != 0 ==> s.cnt == seen[s.key])
    && (s.key == 0 ==> s.cnt == seen[s.key] + 1)
  }

  ghost predicate Counts(ht: seq<Slot>, seen: multiset<int>) {
    && (forall i {:trigger Tallied(ht[i], seen)} :: 0 <= i < |ht| && Taken(ht[i]) ==> Tallied(ht[i], seen))
    && (forall v {:trigger Holds(ht, v)} :: v in seen ==> Holds(ht, v))
  }

  ghost predicate Holds(ht: seq<Slot>, v: int) {
    exists i :: 0 <= i < |ht| && Taken(ht[i]) && ht[i].key == v
  }

  ghost function Keys(ht: seq<Slot>): set<int> {
    set i | 0 <= i < |ht| && Taken(ht[i]) :: ht[i].key
  }

  ghost predicate Inv(ht: seq<Slot>, home: int -> nat, seen: multiset<int>) {
    Clean(ht) && Reachable(ht, home) && Distinct(ht) && Counts(ht, seen)
  }

  // ----- probing

  /** Where the probing for `v` stops: everything before holds other keys. */
  ghost predicate Stops(ht: seq<Slot>, h: int, v: int, pos: int) {
    && 0 <= pos < |ht| && (ht[pos].key == v || ht[pos].cnt == 0)
    && forall k | 0 <= k < |ht| && Before(h, pos, k) :: Taken(ht[k]) && ht[k].key != v
  }

  /** count_ht.c:157-189; -1 when no slot was found. */
  method Probe(ht: array<Slot>, v: int, h: nat) returns (pos: int)
    requires h < ht.Length && Clean(ht[..])
    ensures pos == -1 ==> forall k :: 0 <= k < ht.Length ==> Taken(ht[k]) && ht[k].key != v
    ensures pos != -1 ==> Stops(ht[..], h, v, pos)
  {
    var i := h;
    while i < ht.Length
      invariant h <= i <= ht.Length
      invariant forall k :: h <= k < i ==> Taken(ht[..][k]) && ht[..][k].key != v
    {
      if ht[i].key == v || ht[i].cnt == 0 { return i; }
      i := i + 1;
    }
    i := 0;
    while i < h
      invariant 0 <= i <= h
      invariant forall k :: h <= k < ht.Length ==> Taken(ht[..][k]) && ht[..][k].key != v
      invariant forall k :: 0 <= k < i ==> Taken(ht[..][k]) && ht[..][k].key != v
    {
      if ht[i].key == v || ht[i].cnt == 0 { return i; }
      i := i + 1;
    }
    assert forall k :: 0 <= k < ht.Length ==> ht[k] == ht[..][k];
    return -1;
  }

  /** An unused slot at the end of the probing means that the key is not in the table. */
  lemma StopFree(ht: seq<Slot>, home: int -> nat, v: int, pos: int)
    requires Clean(ht) && Reachable(ht, home) && Stops(ht, home(v), v, pos) && !Taken(ht[pos])
    ensures !Holds(ht, v)
  {
    var h := home(v);
    forall i | 0 <= i < |ht| && Taken(ht[i]) ensures ht[i].key != v {
      assert i != pos && Reached(ht, home, i);
      assert Before(h, i, pos) || Before(h, pos, i);
    }
  }

  /** The table after one more `v`, found at `pos`. */
  function Bump(ht: seq<Slot>, pos: nat, v: int): seq<Slot>
    requires pos < |ht|
  {
    if Taken(ht[pos]) then ht[pos := Slot(v, ht[pos].cnt + 1)] else ht[pos := Slot(v, if v == 0 then 2 else 1)]
  }

  lemma BumpClean(ht: seq<Slot>, home: int -> nat, v: int, pos: int)
    requires Clean(ht) && Reachable(ht, home) && Stops(ht, home(v), v, pos)
    ensures Clean(Bump(ht, pos, v)) && Reachable(Bump(ht, pos, v), home)
  {
    var now := Bump(ht, pos, v);
    forall i | 0 <= i < |now| && Taken(now[i]) ensures Reached(now, home, i) {
      if i != pos { assert now[i] == ht[i] && Reached(ht, home, i); }
    }
  }

  lemma BumpDistinct(ht: seq<Slot>, home: int -> nat, v: int, pos: int)
    requires Clean(ht) && Reachable(ht, home) && Distinct(ht) && Stops(ht, home(v), v, pos)
    ensures Distinct(Bump(ht, pos, v))
  {
    if !Taken(ht[pos]) { StopFree(ht, home, v, pos); }
    var now := Bump(ht, pos, v);
    assert Taken(ht[pos]) ==> OnlyAt(ht, pos);
    forall i | 0 <= i < |now| && i != pos && Taken(now[i]) ensures now[i] == ht[i] && now[i].key != v {}
    forall i | 0 <= i < |now| && Taken(now[i]) ensures OnlyAt(now, i) {
      if i != pos { assert OnlyAt(ht, i); }
    }
  }

  lemma BumpCounts(ht: seq<Slot>, home: int -> nat, v: int, pos: int, seen: multiset<int>)
    requires Inv(ht, home, seen) && Stops(ht, home(v), v, pos)
    ensures Counts(Bump(ht, pos, v), seen + multiset{v})
  {
    var now, more := Bump(ht, pos, v), seen + multiset{v};
    if !Taken(ht[pos]) {
      StopFree(ht, home, v, pos);
      assert v !in seen;
    }
    assert Taken(ht[pos]) ==> OnlyAt(ht, pos);
    forall i | 0 <= i < |now| && Taken(now[i]) ensures Tallied(now[i], more) {
      if i != pos { assert now[i] == ht[i] && now[i].key != v; }
      assert Taken(ht[i]) ==> Tallied(ht[i], seen);
    }
    forall u | u in more ensures Holds(now, u) {
      if u == v {
        assert Taken(now[pos]) && now[pos].key == v;
      } else {
        assert u in seen && Holds(ht, u);
        var i :| 0 <= i < |ht| && Taken(ht[i]) && ht[i].key == u;
        assert i != pos && now[i] == ht[i];
      }
    }
  }

  lemma BumpKeys(ht: seq<Slot>, home: int -> nat, v: int, pos: int)
    requires Clean(ht) && Reachable(ht, home) && Stops(ht, home(v), v, pos)
    ensures Keys(Bump(ht, pos, v)) == Keys(ht) + {v}
    ensures Taken(ht[pos]) <==> v in Keys(ht)
  {
    var now := Bump(ht, pos, v);
    if !Taken(ht[pos]) { StopFree(ht, home, v, pos); }
    forall u | u in Keys(ht) ensures u in Keys(now) {
      var i :| 0 <= i < |ht| && Taken(ht[i]) && ht[i].key == u;
      assert Taken(now[i]) && now[i].key == u;
    }
    assert Taken(now[pos]) && now[pos].key == v;
  }

  // ----- how full the table is

  function TakenCount(ht: seq<Slot>): (n: nat)
    ensures n <= |ht|
  {
    if ht == [] then 0 else TakenCount(ht[..|ht|-1]) + (if Taken(ht[|ht|-1]) then 1 else 0)
  }

  /** With one slot per key, slots in use and distinct keys are equally many. */
  lemma {:induction false} TakenAreKeys(ht: seq<Slot>)
    requires Distinct(ht)
    ensures TakenCount(ht) == |Keys(ht)|
  {
    if ht != [] {
      var rest, z := ht[..|ht|-1], ht[|ht|-1];
      forall i | 0 <= i < |rest| && Taken(rest[i]) ensures OnlyAt(rest, i) {
        assert OnlyAt(ht, i);
      }
      TakenAreKeys(rest);
      KeysSplit(ht);
      if Taken(z) {
        assert OnlyAt(ht, |ht| - 1);
        assert z.key !in Keys(rest);
      }
    }
  }

  lemma KeysSplit(ht: seq<Slot>)
    requires |ht| > 0
    ensures Keys(ht) == Keys(ht[..|ht|-1]) + if Taken(ht[|ht|-1]) then {ht[|ht|-1].key} else {}
  {
    var rest, z := ht[..|ht|-1], ht[|ht|-1];
    forall u | u in Keys(rest) ensures u in Keys(ht) {
      var i :| 0 <= i < |rest| && Taken(rest[i]) && rest[i].key == u;
      assert ht[i] == rest[i];
    }
    forall u | u in Keys(ht) ensures u in Keys(rest) || (Taken(z) && u == z.key) {
      var i :| 0 <= i < |ht| && Taken(ht[i]) && ht[i].key == u;
      if i < |rest| { assert rest[i] == ht[i]; }
    }
  }

  lemma {:induction false} AllTaken(ht: seq<Slot>)
    requires forall k :: 0 <= k < |ht| ==> Taken(ht[k])
    ensures TakenCount(ht) == |ht|
  {
    if ht != [] { AllTaken(ht[..|ht|-1]); }
  }

  /** Below the half-full limit the probing always finds a slot. */
  lemma SpaceFound(ht: seq<Slot>)
    requires Clean(ht) && Distinct(ht) && |Keys(ht)| <= |ht| / 2
    ensures exists k :: 0 <= k < |ht| && !Taken(ht[k])
  {
    if forall k :: 0 <= k < |ht| ==> Taken(ht[k]) {
      AllTaken(ht);
      TakenAreKeys(ht);
    }
  }

  /** The keys in the table are those that were inserted. */
  lemma KeysSeen(ht: seq<Slot>, seen: multiset<int>, v: int)
    requires Counts(ht, seen)
    ensures v in Keys(ht) <==> v in seen
  {
    if v in seen {
      assert Holds(ht, v);
    }
    if v in Keys(ht) {
      var i :| 0 <= i < |ht| && Taken(ht[i]) && ht[i].key == v;
      assert Tallied(ht[i], seen);
    }
  }

  // ----- counting

  /** max_count is the greatest count above one, 0 when there is none. */
  ghost predicate Covered(ht: seq<Slot>, maxCount: int) {
    && maxCount >= 0 && (forall i :: 0 <= i < |ht| && ht[i].cnt > 1 ==> ht[i].cnt <= maxCount)
    && (maxCount > 0 ==> Attained(ht, maxCount))
  }

  ghost predicate Attained(ht: seq<Slot>, maxCount: int) {
    exists i :: 0 <= i < |ht| && ht[i].cnt == maxCount
  }

  ghost predicate Counting(ht: seq<Slot>, home: int -> nat, seen: multiset<int>, n: int, maxCount: int) {
    HomesIn(home, |ht|) && Inv(ht, home, seen) && n == |Keys(ht)| && Covered(ht, maxCount)
  }

  lemma BumpKeeps(ht: seq<Slot>, home: int -> nat, seen: multiset<int>, n: int, maxCount: int, v: int, pos: int,
                  maxCount': int)
    requires Counting(ht, home, seen, n, maxCount) && Stops(ht, home(v), v, pos)
    requires maxCount' == Greater(maxCount, Bump(ht, pos, v)[pos].cnt)
    ensures Counting(Bump(ht, pos, v), home, seen + multiset{v}, if Taken(ht[pos]) then n else n + 1, maxCount')
  {
    BumpClean(ht, home, v, pos);
    BumpDistinct(ht, home, v, pos);
    BumpCounts(ht, home, v, pos, seen);
    KeysMore(ht, home, v, pos);
    BumpCovered(ht, v, pos, maxCount, maxCount');
  }

  lemma KeysMore(ht: seq<Slot>, home: int -> nat, v: int, pos: int)
    requires Clean(ht) && Reachable(ht, home) && Stops(ht, home(v), v, pos)
    ensures |Keys(Bump(ht, pos, v))| == if Taken(ht[pos]) then |Keys(ht)| else |Keys(ht)| + 1
  {
    BumpKeys(ht, home, v, pos);
    if Taken(ht[pos]) { assert Keys(ht) + {v} == Keys(ht); }
  }

  lemma BumpCovered(ht: seq<Slot>, v: int, pos: int, maxCount: int, maxCount': int)
    requires 0 <= pos < |ht| && Covered(ht, maxCount) && maxCount' == Greater(maxCount, Bump(ht, pos, v)[pos].cnt)
    ensures Covered(Bump(ht, pos, v), maxCount')
  {
    var now := Bump(ht, pos, v);
    forall i | 0 <= i < |ht| && i != pos ensures now[i] == ht[i] {}
    if maxCount' > maxCount {
      assert now[pos].cnt == maxCount';
    } else if maxCount > 0 {
      var i :| 0 <= i < |ht| && ht[i].cnt == maxCount;
      assert i != pos && now[i].cnt == maxCount;
    }
  }

  /** max_count after a slot has reached the count `cnt`; the count 1 of a new key is not looked at. */
  function Greater(maxCount: int, cnt: int): int {
    if cnt > 1 && cnt > maxCount then cnt else maxCount
  }

  /** One value into the table (count_ht.c:153-211); the no-space exit is never taken. */
  method Insert(ht: array<Slot>, home: int -> nat, v: int, nHt: int, maxCount: int,
                ghost seen: multiset<int>) returns (n: int, mx: int)
    requires Counting(ht[..], home, seen, nHt, maxCount) && nHt <= ht.Length / 2
    modifies ht
    ensures Counting(ht[..], home, seen + multiset{v}, n, mx)
  {
    n, mx := nHt, maxCount;
    ghost var was := ht[..];
    var pos := Probe(ht, v, home(v));
    SpaceFound(was);
    assert pos != -1 by { assert forall k :: 0 <= k < |was| ==> was[k] == ht[k]; }
    if ht[pos].key == v {
      if ht[pos].cnt == 0 {
        ht[pos] := Slot(v, 1);
        n := n + 1;
      }
      ht[pos] := Slot(v, ht[pos].cnt + 1);
      if ht[pos].cnt > mx { mx := ht[pos].cnt; }
    } else {
      ht[pos] := Slot(v, 1);
      n := n + 1;
    }
    assert ht[..] == Bump(was, pos, v);
    BumpKeeps(was, home, seen, nHt, maxCount, v, pos, mx);
  }

  // ----- rows

  /** The sign-extending cast to unsigned 64 bits. */
  function ToKey(v: int): int { v % 0x1_0000_0000_0000_0000 }

  /** The cast back on output. */
  function FromKey(k: int): int { if k < 0x8000_0000_0000_0000 then k else k - 0x1_0000_0000_0000_0000 }

  predicate IsI8(v: int) { -0x8000_0000_0000_0000 <= v < 0x8000_0000_0000_0000 }

  /** Is row `r` counted?  The masks are read at the row's offset in its block (count_ht.c:130-131). */
  predicate Good(nn: Mask, cf: Mask, blockSize: nat, r: nat)
    requires blockSize > 0
  {
    On(nn, r % blockSize) && On(cf, r % blockSize)
  }

  ghost function GoodRows(nn: Mask, cf: Mask, blockSize: nat, n: nat): (good: seq<bool>)
    requires blockSize > 0
    ensures |good| == n && forall r :: 0 <= r < n ==> good[r] == Good(nn, cf, blockSize, r)
  {
    seq(n, r requires 0 <= r < n => Good(nn, cf, blockSize, r))
  }

  /** The keys of the counted rows below `n`. */
  ghost function Seen(x: seq<int>, good: seq<bool>, n: nat): multiset<int>
    requires n <= |x| == |good|
  {
    if n == 0 then multiset{}
    else Seen(x, good, n - 1) + if good[n-1] then multiset{ToKey(x[n-1])} else multiset{}
  }

  /** How often value `v` occurs in the counted rows below `n`. */
  function Occurs(x: seq<int>, good: seq<bool>, n: nat, v: int): nat
    requires n <= |x| == |good|
  {
    if n == 0 then 0 else Occurs(x, good, n - 1, v) + if good[n-1] && x[n-1] == v then 1 else 0
  }

  lemma KeyRoundTrip(v: int)
    requires IsI8(v)
    ensures FromKey(ToKey(v)) == v && (ToKey(v) == 0 <==> v == 0)
  {
    if v < 0 { assert v % 0x1_0000_0000_0000_0000 == v + 0x1_0000_0000_0000_0000; }
  }

  lemma {:induction false} SeenOccurs(x: seq<int>, good: seq<bool>, n: nat, v: int)
    requires n <= |x| == |good| && IsI8(v) && forall i :: 0 <= i < |x| ==> IsI8(x[i])
    ensures Seen(x, good, n)[ToKey(v)] == Occurs(x, good, n, v)
  {
    if n > 0 {
      SeenOccurs(x, good, n - 1, v);
      KeyRoundTrip(v);
      KeyRoundTrip(x[n-1]);
    }
  }

  lemma {:induction false} SeenRow(x: seq<int>, good: seq<bool>, n: nat, k: int) returns (r: nat)
    requires n <= |x| == |good| && k in Seen(x, good, n)
    ensures r < n && good[r] && ToKey(x[r]) == k
  {
    if k in Seen(x, good, n - 1) { r := SeenRow(x, good, n - 1, k); } else { r := n - 1; }
  }

  lemma {:induction false} RowSeen(x: seq<int>, good: seq<bool>, n: nat, r: nat)
    requires r < n <= |x| == |good| && good[r]
    ensures ToKey(x[r]) in Seen(x, good, n)
  {
    if r < n - 1 { RowSeen(x, good, n - 1, r); }
  }

  /** The distinct values of the counted rows below `n`. */
  ghost function ValueSet(x: seq<int>, good: seq<bool>, n: nat): set<int>
    requires n <= |x| == |good|
  {
    set r | 0 <= r < n && good[r] :: x[r]
  }

  /** And their distinct keys. */
  ghost function KeySet(x: seq<int>, good: seq<bool>, n: nat): set<int>
    requires n <= |x| == |good|
  {
    set r | 0 <= r < n && good[r] :: ToKey(x[r])
  }

  /** The cast does not merge values: as many keys as values among the counted rows below `n`. */
  lemma {:induction false} AsManyKeys(x: seq<int>, good: seq<bool>, n: nat)
    requires n <= |x| == |good| && forall i :: 0 <= i < |x| ==> IsI8(x[i])
    ensures |KeySet(x, good, n)| == |ValueSet(x, good, n)|
  {
    if n > 0 {
      var m := n - 1;
      AsManyKeys(x, good, m);
      ValueSetStep(x, good, m, n);
      KeySetStep(x, good, m, n);
      SameCast(x, good, m);
    }
  }

  lemma ValueSetStep(x: seq<int>, good: seq<bool>, m: nat, n: nat)
    requires m < n == m + 1 <= |x| == |good|
    ensures ValueSet(x, good, n) == ValueSet(x, good, m) + if good[m] then {x[m]} else {}
  {}

  lemma KeySetStep(x: seq<int>, good: seq<bool>, m: nat, n: nat)
    requires m < n == m + 1 <= |x| == |good|
    ensures KeySet(x, good, n) == KeySet(x, good, m) + if good[m] then {ToKey(x[m])} else {}
  {}

  lemma SameCast(x: seq<int>, good: seq<bool>, m: nat)
    requires m < |x| == |good| && forall i :: 0 <= i < |x| ==> IsI8(x[i])
    ensures x[m] in ValueSet(x, good, m) <==> ToKey(x[m]) in KeySet(x, good, m)
  {
    KeyRoundTrip(x[m]);
    forall r | 0 <= r < m ensures ToKey(x[r]) == ToKey(x[m]) <==> x[r] == x[m] { KeyRoundTrip(x[r]); }
  }

  lemma KeysAreDistinct(ht: seq<Slot>, x: seq<int>, good: seq<bool>, n: nat)
    requires n <= |x| == |good| && Counts(ht, Seen(x, good, n))
    ensures Keys(ht) <= KeySet(x, good, |x|) && |Keys(ht)| <= |KeySet(x, good, |x|)|
    ensures n == |x| ==> Keys(ht) == KeySet(x, good, |x|)
  {
    forall k | k in Keys(ht) ensures k in KeySet(x, good, |x|) {
      KeysSeen(ht, Seen(x, good, n), k);
      var r := SeenRow(x, good, n, k);
    }
    if n == |x| {
      forall k | k in KeySet(x, good, |x|) ensures k in Keys(ht) {
        var r :| 0 <= r < |x| && good[r] && ToKey(x[r]) == k;
        RowSeen(x, good, n, r);
        KeysSeen(ht, Seen(x, good, n), k);
      }
    }
    Smaller(Keys(ht), KeySet(x, good, |x|));
  }

  lemma Smaller(a: set<int>, b: set<int>)
    requires a <= b
    ensures |a| <= |b|
  {
    assert b == a + (b - a);
  }

  /** The masks, read from the start of the block, select the rows `good` of it. */
  ghost predicate BlockGood(good: seq<bool>, nn: Mask, cf: Mask, lb: nat, ub: nat)
    requires ub <= |good|
  {
    forall r :: lb <= r < ub ==> good[r] == (On(nn, r - lb) && On(cf, r - lb))
  }

  lemma GoodAt(good: seq<bool>, nn: Mask, cf: Mask, lb: nat, ub: nat, r: nat)
    requires lb <= r < ub <= |good| && BlockGood(good, nn, cf, lb, ub)
    ensures good[r] == (On(nn, r - lb) && On(cf, r - lb))
  {}

  /** `trace[r]` are the keys seen in the first `r` rows. */
  ghost predicate Follows(x: seq<int>, good: seq<bool>, trace: seq<multiset<int>>) {
    |x| == |good| && |trace| == |x| + 1 && forall r {:trigger TracedAt(x, good, trace, r)} :: 0 <= r <= |x| ==>
        TracedAt(x, good, trace, r)
  }

  ghost predicate TracedAt(x: seq<int>, good: seq<bool>, trace: seq<multiset<int>>, r: int)
    requires |x| == |good| && |trace| == |x| + 1 && 0 <= r <= |x|
  {
    trace[r] == Seen(x, good, r)
  }

  ghost function Trace(x: seq<int>, good: seq<bool>): (trace: seq<multiset<int>>)
    requires |x| == |good|
    ensures Follows(x, good, trace)
  {
    seq(|x| + 1, r requires 0 <= r < |x| + 1 => Seen(x, good, r))
  }

  /** Rows `lb` to `ub` of the column, one block, into the table; `t` is the table as a sequence. */
  method FillBlock(ht: array<Slot>, home: int -> nat, x: seq<int>, nn: Mask, cf: Mask, lb: nat, ub: nat, nHt: int,
                   maxCount: int,
                   ghost good: seq<bool>, ghost trace: seq<multiset<int>>, ghost t0: seq<Slot>)
    returns (status: int, n: int, mx: int, ghost t: seq<Slot>)
    requires Follows(x, good, trace) && lb <= ub <= |x| && BlockGood(good, nn, cf, lb, ub) && t0 == ht[..]
    requires Counting(t0, home, trace[lb], nHt, maxCount) && nHt <= ht.Length / 2
    modifies ht
    ensures t == ht[..]
    ensures status == 0 ==> Counting(t, home, trace[ub], n, mx) && n <= ht.Length / 2
    ensures status != 0 ==> status == -1 && |KeySet(x, good, |x|)| > ht.Length / 2
  {
    status, n, mx := 0, nHt, maxCount;
    var r := lb;
    t := t0;
    while r < ub
      invariant lb <= r <= ub && status == 0 && n <= ht.Length / 2 && t == ht[..]
      invariant Counting(t, home, trace[r], n, mx)
    {
      var next := r + 1;
      GoodAt(good, nn, cf, lb, ub, r);
      n, mx, t := VisitRow(ht, home, x, nn, cf, r, next, r - lb, n, mx, good, trace, t);
      if n > ht.Length / 2 { return -1, n, mx, t; }
      r := next;
    }
  }

  /** Row `r`, at offset `j` of its block. */
  method VisitRow(ht: array<Slot>, home: int -> nat, x: seq<int>, nn: Mask, cf: Mask, r: nat, next: nat, j: nat,
                  nHt: int, maxCount: int,
                  ghost good: seq<bool>, ghost trace: seq<multiset<int>>, ghost t0: seq<Slot>)
    returns (n: int, mx: int, ghost t: seq<Slot>)
    requires Follows(x, good, trace) && r < |x| && next == r + 1 && good[r] == (On(nn, j) && On(cf, j)) && t0 == ht[..]
    requires Counting(t0, home, trace[r], nHt, maxCount) && nHt <= ht.Length / 2
    modifies ht
    ensures t == ht[..] && Counting(t, home, trace[next], n, mx)
    ensures n > ht.Length / 2 ==> |KeySet(x, good, |x|)| > ht.Length / 2
  {
    n, mx := nHt, maxCount;
    TraceStep(x, good, trace, r, next);
    if (nn.All? || (j < |nn.bits| && nn.bits[j])) && (cf.All? || (j < |cf.bits| && cf.bits[j])) {
      n, mx := Insert(ht, home, x[r] % 0x1_0000_0000_0000_0000, nHt, maxCount, trace[r]);
      TooMany(ht[..], x, good, trace, next);
    }
    t := ht[..];
  }

  lemma TraceStep(x: seq<int>, good: seq<bool>, trace: seq<multiset<int>>, r: nat, next: nat)
    requires Follows(x, good, trace) && r < |x| && next == r + 1
    ensures trace[next] == if good[r] then trace[r] + multiset{ToKey(x[r])} else trace[r]
  {
    assert TracedAt(x, good, trace, r) && TracedAt(x, good, trace, next);
  }

  lemma TooMany(ht: seq<Slot>, x: seq<int>, good: seq<bool>, trace: seq<multiset<int>>, n: nat)
    requires Follows(x, good, trace) && n <= |x| && Counts(ht, trace[n])
    ensures |Keys(ht)| <= |KeySet(x, good, |x|)|
  {
    assert TracedAt(x, good, trace, n);
    KeysAreDistinct(ht, x, good, n);
  }

  // ----- all blocks

  lemma OffsetInBlock(lb: nat, j: nat, blockSize: nat)
    requires j < blockSize && lb % blockSize == 0
    ensures (lb + j) % blockSize == j
  {
    Division(lb, blockSize);
    RemainderUnique(lb / blockSize, j, blockSize);
  }

  lemma BlockIsGood(good: seq<bool>, nn: Mask, cf: Mask, blockSize: nat, lb: nat, ub: nat)
    requires blockSize > 0 && lb % blockSize == 0 && lb <= ub <= |good| && ub <= lb + blockSize
    requires good == GoodRows(nn, cf, blockSize, |good|)
    ensures BlockGood(good, nn, cf, lb, ub)
  {
    forall r | lb <= r < ub ensures good[r] == (On(nn, r - lb) && On(cf, r - lb)) {
      OffsetInBlock(lb, r - lb, blockSize);
    }
  }

  /** The loop over the blocks (count_ht.c:117-216). */
  method Fill(ht: array<Slot>, home: int -> nat, x: seq<int>, nn: Mask, cf: Mask, ghost good: seq<bool>,
              ghost t0: seq<Slot>)
    returns (status: int, n: int, mx: int, ghost t: seq<Slot>)
    requires |x| <= INT_MAX && |good| == |x| && good == GoodRows(nn, cf, COUNT_BLOCK, |x|)
    requires t0 == ht[..] && Counting(t0, home, multiset{}, 0, 0)
    modifies ht
    ensures t == ht[..]
    ensures status == 0 ==> Counting(t, home, Seen(x, good, |x|), n, mx) && n <= ht.Length / 2
    ensures status == if |KeySet(x, good, |x|)| > ht.Length / 2 then -1 else 0
  {
    status, n, mx, t := 0, 0, 0, t0;
    ghost var trace := Trace(x, good);
    var rows := |x|;
    var blocks := rows / 2097152;
    if blocks * 2097152 < rows { blocks := blocks + 1; }
    CountBlocksExact(rows);
    assert TracedAt(x, good, trace, 0);
    var b := 0;
    while b < blocks
      invariant 0 <= b <= blocks && status == 0 && n <= ht.Length / 2 && t == ht[..]
      invariant Counting(t, home, trace[RowsDone(rows, b)], n, mx)
    {
      var next := b + 1;
      status, n, mx, t := FillNth(ht, home, x, nn, cf, b, next, n, mx, good, trace, t);
      if status < 0 { return; }
      b := next;
    }
    assert RowsDone(rows, b) == rows;
    assert TracedAt(x, good, trace, rows);
    KeysAreDistinct(t, x, good, rows);
  }

  /** The rows in the first `b` blocks. */
  function RowsDone(rows: nat, b: nat): nat {
    if COUNT_BLOCK * b > rows then rows else COUNT_BLOCK * b
  }

  /** Block `b`. */
  method FillNth(ht: array<Slot>, home: int -> nat, x: seq<int>, nn: Mask, cf: Mask, b: nat, next: nat, nHt: int,
                 maxCount: int,
                 ghost good: seq<bool>, ghost trace: seq<multiset<int>>, ghost t0: seq<Slot>)
    returns (status: int, n: int, mx: int, ghost t: seq<Slot>)
    requires |x| <= INT_MAX && next == b + 1 <= CountBlocks(|x|)
    requires Follows(x, good, trace) && good == GoodRows(nn, cf, COUNT_BLOCK, |x|) && t0 == ht[..]
    requires Counting(t0, home, trace[RowsDone(|x|, b)], nHt, maxCount) && nHt <= ht.Length / 2
    modifies ht
    ensures t == ht[..]
    ensures status == 0 ==> Counting(t, home, trace[RowsDone(|x|, next)], n, mx) && n <= ht.Length / 2
    ensures status != 0 ==> status == -1 && |KeySet(x, good, |x|)| > ht.Length / 2
  {
    CountBlocksExact(|x|);
    assert Int32(COUNT_BLOCK * b) == COUNT_BLOCK * b < |x|;
    var lb := Int32(COUNT_BLOCK * b);
    var ub := lb + COUNT_BLOCK;
    if ub > |x| { ub := |x|; }
    BlockIsGood(good, nn, cf, COUNT_BLOCK, lb, ub);
    status, n, mx, t := FillBlock(ht, home, x, nn, cf, lb, ub, nHt, maxCount, good, trace, t0);
  }

  // ----- output

  function Values(ht: seq<Slot>): seq<int> {
    if ht == [] then [] else Values(ht[..|ht|-1]) + if Taken(ht[|ht|-1]) then [FromKey(ht[|ht|-1].key)] else []
  }

  function Tallies(ht: seq<Slot>): seq<int> {
    if ht == [] then [] else Tallies(ht[..|ht|-1]) + if Taken(ht[|ht|-1]) then [ht[|ht|-1].cnt] else []
  }

  /** count_ht.c:231-275: the taken slots in table order. */
  method Dump(ht: array<Slot>) returns (vals: seq<int>, cnts: seq<int>)
    ensures vals == Values(ht[..]) && cnts == Tallies(ht[..])
  {
    vals, cnts := [], [];
    var i := 0;
    while i < ht.Length
      invariant 0 <= i <= ht.Length && vals == Values(ht[..i]) && cnts == Tallies(ht[..i])
    {
      if ht[i].cnt > 0 {
        var key := ht[i].key;
        vals := vals + [if key < 0x8000_0000_0000_0000 then key else key - 0x1_0000_0000_0000_0000];
        cnts := cnts + [ht[i].cnt];
      }
      assert ht[..i+1][..i] == ht[..i];
      i := i + 1;
    }
    assert ht[..] == ht[..i];
  }

  /** The slot listed as number `j`. */
  ghost function SlotOf(ht: seq<Slot>, j: nat): nat
    requires j < TakenCount(ht)
  {
    if Taken(ht[|ht|-1]) && j == TakenCount(ht[..|ht|-1]) then |ht| - 1 else SlotOf(ht[..|ht|-1], j)
  }

  lemma {:induction false} ListLength(ht: seq<Slot>)
    ensures |Values(ht)| == |Tallies(ht)| == TakenCount(ht)
  {
    if ht != [] { ListLength(ht[..|ht|-1]); }
  }

  lemma {:induction false} SlotListed(ht: seq<Slot>, j: nat)
    requires j < TakenCount(ht)
    ensures |Values(ht)| == |Tallies(ht)| == TakenCount(ht)
    ensures var i := SlotOf(ht, j);
        i < |ht| && Taken(ht[i]) && Values(ht)[j] == FromKey(ht[i].key) && Tallies(ht)[j] == ht[i].cnt
  {
    ListLength(ht);
    var rest := ht[..|ht|-1];
    ListLength(rest);
    if j < TakenCount(rest) {
      SlotListed(rest, j);
      assert rest[SlotOf(rest, j)] == ht[SlotOf(rest, j)];
    }
  }

  /** Slots are listed in table order, so none is listed twice. */
  lemma {:induction false} SlotsAscend(ht: seq<Slot>, j: nat, k: nat)
    requires j < k < TakenCount(ht)
    ensures SlotOf(ht, j) < SlotOf(ht, k)
  {
    var rest := ht[..|ht|-1];
    SlotListed(rest, j);
    if k < TakenCount(rest) { SlotsAscend(rest, j, k); }
  }

  lemma {:induction false} TakenListed(ht: seq<Slot>, i: nat) returns (j: nat)
    requires i < |ht| && Taken(ht[i])
    ensures j < TakenCount(ht) && SlotOf(ht, j) == i
  {
    var rest := ht[..|ht|-1];
    if i == |ht| - 1 { j := TakenCount(rest); } else { j := TakenListed(rest, i); }
  }

  /** The distinct selected values, each once, each with its number of occurrences (one more for 0). */
  ghost predicate Listed(x: seq<int>, good: seq<bool>, vals: seq<int>, cnts: seq<int>)
    requires |x| == |good|
  {
    && |vals| == |cnts|
    && (forall j :: 0 <= j < |vals| ==>
        Occurs(x, good, |x|, vals[j]) > 0
        && cnts[j] == Occurs(x, good, |x|, vals[j]) + if vals[j] == 0 then 1 else 0)
    && (forall j, k :: 0 <= j < k < |vals| ==> vals[j] != vals[k])
    && (forall v :: IsI8(v) && Occurs(x, good, |x|, v) > 0 ==> v in vals)
  }

  /** The counted rows below `n` that hold `v`. */
  ghost function RowsOf(x: seq<int>, good: seq<bool>, n: nat, v: int): set<int>
    requires n <= |x| == |good|
  {
    set r | 0 <= r < n && good[r] && x[r] == v
  }

  lemma {:induction false} OccursIs(x: seq<int>, good: seq<bool>, n: nat, v: int)
    requires n <= |x| == |good|
    ensures Occurs(x, good, n, v) == |RowsOf(x, good, n, v)|
  {
    if n > 0 {
      var m := n - 1;
      OccursIs(x, good, m, v);
      assert RowsOf(x, good, n, v) == RowsOf(x, good, m, v) + if good[m] && x[m] == v then {m} else {};
    }
  }

  /**
   The list in terms of the column alone: every value listed once, every
   counted value in the list, and the count of a value other than 0 is the
   number of counted rows that hold it; the count of 0 is one more.
   */
  ghost predicate Counted(x: seq<int>, good: seq<bool>, vals: seq<int>, cnts: seq<int>)
    requires |x| == |good|
  {
    && |vals| == |cnts|
    && (forall j :: 0 <= j < |vals| ==> CountedAt(x, good, vals[j], cnts[j]))
    && (forall j, k :: 0 <= j < k < |vals| ==> vals[j] != vals[k])
    && (forall r :: 0 <= r < |x| && good[r] ==> x[r] in vals)
  }

  ghost predicate CountedAt(x: seq<int>, good: seq<bool>, v: int, cnt: int)
    requires |x| == |good|
  {
    var rows := set r | 0 <= r < |x| && good[r] && x[r] == v;
    rows != {} && (v != 0 ==> cnt == |rows|) && (v == 0 ==> cnt == |rows| + 1)
  }

  lemma ListedIsCounted(x: seq<int>, good: seq<bool>, vals: seq<int>, cnts: seq<int>)
    requires |x| == |good| && AllI8(x) && Listed(x, good, vals, cnts)
    ensures Counted(x, good, vals, cnts)
  {
    forall j | 0 <= j < |vals| ensures CountedAt(x, good, vals[j], cnts[j]) {
      OccursIs(x, good, |x|, vals[j]);
      assert RowsOf(x, good, |x|, vals[j]) == set r | 0 <= r < |x| && good[r] && x[r] == vals[j];
    }
    forall r | 0 <= r < |x| && good[r] ensures x[r] in vals {
      OccursIs(x, good, |x|, x[r]);
      assert r in RowsOf(x, good, |x|, x[r]);
    }
  }

  predicate AllI8(x: seq<int>) { forall i :: 0 <= i < |x| ==> IsI8(x[i]) }

  /** A taken slot holds a selected value and its count. */
  lemma SlotCounts(ht: seq<Slot>, x: seq<int>, good: seq<bool>, i: nat)
    requires |x| == |good| && AllI8(x) && Counts(ht, Seen(x, good, |x|)) && i < |ht| && Taken(ht[i])
    ensures var v := FromKey(ht[i].key);
        IsI8(v) && ToKey(v) == ht[i].key && Occurs(x, good, |x|, v) > 0 &&
            ht[i].cnt == Occurs(x, good, |x|, v) + if v == 0 then 1 else 0
  {
    assert Tallied(ht[i], Seen(x, good, |x|));
    var r := SeenRow(x, good, |x|, ht[i].key);
    KeyRoundTrip(x[r]);
    SeenOccurs(x, good, |x|, x[r]);
  }

  lemma ListedCounts(ht: seq<Slot>, x: seq<int>, good: seq<bool>, j: nat)
    requires |x| == |good| && AllI8(x) && Counts(ht, Seen(x, good, |x|)) && j < TakenCount(ht)
    ensures |Values(ht)| == |Tallies(ht)| == TakenCount(ht)
    ensures Occurs(x, good, |x|, Values(ht)[j]) > 0
    ensures Tallies(ht)[j] == Occurs(x, good, |x|, Values(ht)[j]) + if Values(ht)[j] == 0 then 1 else 0
  {
    SlotListed(ht, j);
    SlotCounts(ht, x, good, SlotOf(ht, j));
  }

  lemma ListedOnce(ht: seq<Slot>, x: seq<int>, good: seq<bool>, j: nat, k: nat)
    requires |x| == |good| && AllI8(x) && Counts(ht, Seen(x, good, |x|)) && Distinct(ht) && j < k < TakenCount(ht)
    ensures |Values(ht)| == TakenCount(ht) && Values(ht)[j] != Values(ht)[k]
  {
    SlotListed(ht, j);
    SlotListed(ht, k);
    SlotsAscend(ht, j, k);
    SlotCounts(ht, x, good, SlotOf(ht, j));
    SlotCounts(ht, x, good, SlotOf(ht, k));
    assert OnlyAt(ht, SlotOf(ht, j));
  }

  lemma ValueListed(ht: seq<Slot>, x: seq<int>, good: seq<bool>, v: int)
    requires |x| == |good| && AllI8(x) && Counts(ht, Seen(x, good, |x|)) && IsI8(v) && Occurs(x, good, |x|, v) > 0
    ensures v in Values(ht)
  {
    SeenOccurs(x, good, |x|, v);
    assert Holds(ht, ToKey(v));
    var i :| 0 <= i < |ht| && Taken(ht[i]) && ht[i].key == ToKey(v);
    var j := TakenListed(ht, i);
    SlotListed(ht, j);
    KeyRoundTrip(v);
  }

  lemma ListIsCounted(ht: seq<Slot>, x: seq<int>, good: seq<bool>)
    requires |x| == |good| && AllI8(x) && Counts(ht, Seen(x, good, |x|)) && Distinct(ht)
    ensures Listed(x, good, Values(ht), Tallies(ht))
  {
    ListLength(ht);
    forall j | 0 <= j < |Values(ht)|
      ensures Occurs(x, good, |x|, Values(ht)[j]) > 0
      ensures Tallies(ht)[j] == Occurs(x, good, |x|, Values(ht)[j]) + if Values(ht)[j] == 0 then 1 else 0
    {
      ListedCounts(ht, x, good, j);
    }
    forall j, k | 0 <= j < k < |Values(ht)| ensures Values(ht)[j] != Values(ht)[k] {
      ListedOnce(ht, x, good, j, k);
    }
    forall v | IsI8(v) && Occurs(x, good, |x|, v) > 0 ensures v in Values(ht) {
      ValueListed(ht, x, good, v);
    }
  }

  lemma EmptyTable(t: seq<Slot>, home: int -> nat)
    requires |t| > 0 && HomesIn(home, |t|) && forall i :: 0 <= i < |t| ==> t[i] == EMPTY
    ensures Counting(t, home, multiset{}, 0, 0)
  {
    assert Keys(t) == {};
  }

  /**
   count_ht on a column, its null flags and a condition column.  `status` is
   -1 exactly when more than half the table's slots would be needed; counts
   go out as 64-bit integers (`wide`) exactly when one of them needs it.  From
   2^31 rows on the blocks start at wrong rows (`CountBlocksExact`): such a
   call is not `defined`.
   */
  method CountHt(x: seq<int>, nn: Mask, cf: Mask, sz: nat, mix: int -> nat)
    returns (defined: bool, status: int, vals: seq<int>, cnts: seq<int>, wide: bool, ghost good: seq<bool>)
    requires AllI8(x) && sz > 0
    ensures defined <==> |x| <= INT_MAX
    ensures |good| == |x| && forall r :: 0 <= r < |x| ==>
              good[r] == ((nn.All? || (r % 2097152 < |nn.bits| && nn.bits[r % 2097152]))
                       && (cf.All? || (r % 2097152 < |cf.bits| && cf.bits[r % 2097152])))
    ensures defined ==> status == if |ValueSet(x, good, |x|)| > sz / 2 then -1 else 0
    ensures defined && status == 0 ==>
              && Counted(x, good, vals, cnts) && |vals| == |ValueSet(x, good, |x|)|
              && (wide <==> exists j :: 0 <= j < |cnts| && cnts[j] > 0x7FFF_FFFF)
  {
    defined, status, vals, cnts, wide := |x| <= INT_MAX, 0, [], [], false;
    good := GoodRows(nn, cf, COUNT_BLOCK, |x|);
    if !defined { return; }
    var ht := new Slot[sz](_ => EMPTY);
    var home := v => mix(v) % sz;
    EmptyTable(ht[..], home);
    AsManyKeys(x, good, |x|);
    var n, mx;
    ghost var t;
    status, n, mx, t := Fill(ht, home, x, nn, cf, good, ht[..]);
    if status < 0 { return; }
    vals, cnts := Dump(ht);
    wide := mx > INT_MAX;
    Finish(t, home, x, good, n, mx);
  }

  lemma Finish(t: seq<Slot>, home: int -> nat, x: seq<int>, good: seq<bool>, n: int, mx: int)
    requires |x| == |good| && AllI8(x) && Counting(t, home, Seen(x, good, |x|), n, mx)
    ensures Counted(x, good, Values(t), Tallies(t)) && |Values(t)| == |KeySet(x, good, |x|)| == n
    ensures mx > INT_MAX <==> exists j :: 0 <= j < |Tallies(t)| && Tallies(t)[j] > INT_MAX
  {
    ListIsCounted(t, x, good);
    ListedIsCounted(x, good, Values(t), Tallies(t));
    KeysAreDistinct(t, x, good, |x|);
    TakenAreKeys(t);
    ListLength(t);
    if mx > INT_MAX {
      var i :| 0 <= i < |t| && t[i].cnt == mx;
      var j := TakenListed(t, i);
      SlotListed(t, j);
    }
    forall j | 0 <= j < |Tallies(t)| ensures Tallies(t)[j] <= 1 || Tallies(t)[j] <= mx {
      SlotListed(t, j);
    }
  }

  // ----- the masks

  /** The rows that the null flags and the condition select. */
  ghost function MaskedRows(nn: Mask, cf: Mask, n: nat): (good: seq<bool>)
    ensures |good| == n && forall r :: 0 <= r < n ==> good[r] == (On(nn, r) && On(cf, r))
  {
    seq(n, r requires 0 <= r < n => On(nn, r) && On(cf, r))
  }

  /** The column 0, 1, 2, ... tells rows apart. */
  lemma {:induction false} CountingColumn(x: seq<int>, good: seq<bool>, n: nat, v: nat)
    requires n <= |x| == |good| && v < |x| && forall i :: 0 <= i < |x| ==> x[i] == i
    ensures Occurs(x, good, n, v) == if v < n && good[v] then 1 else 0
  {
    if n > 0 { CountingColumn(x, good, n - 1, v); }
  }

  ghost predicate SameCounts(a: seq<bool>, b: seq<bool>) {
    |a| == |b| && forall x: seq<int>, v: int | |x| == |a| :: Occurs(x, a, |x|, v) == Occurs(x, b, |x|, v)
  }

  /**
   The counts are those of the masked rows, whatever the column, exactly when
   the masks repeat with the block size; in particular when there is one block.
   */
  lemma MasksExact(nn: Mask, cf: Mask, blockSize: nat, n: nat)
    requires blockSize > 0
    ensures SameCounts(GoodRows(nn, cf, blockSize, n), MaskedRows(nn, cf, n)) <==>
        forall r :: 0 <= r < n ==> Good(nn, cf, blockSize, r) == (On(nn, r) && On(cf, r))
    ensures n <= blockSize ==> SameCounts(GoodRows(nn, cf, blockSize, n), MaskedRows(nn, cf, n))
  {
    var a, b := GoodRows(nn, cf, blockSize, n), MaskedRows(nn, cf, n);
    if SameCounts(a, b) {
      var x := seq(n, i => i);
      forall r | 0 <= r < n ensures a[r] == b[r] {
        CountingColumn(x, a, n, r);
        CountingColumn(x, b, n, r);
        assert Occurs(x, a, |x|, r) == Occurs(x, b, |x|, r);
      }
    }
    if forall r :: 0 <= r < n ==> a[r] == b[r] { assert a == b; }
    if n <= blockSize {
      forall r | 0 <= r < n ensures a[r] == b[r] { SmallRemainder(r, blockSize); }
      assert a == b;
    }
  }

  lemma SmallRemainder(r: nat, b: nat)
    requires r < b
    ensures r % b == r
  {
    RemainderUnique(0, r, b);
  }

  // ----- two columns

  /** The column [0] is reported as one value that occurs twice. */
  lemma ZeroTwice(vals: seq<int>, cnts: seq<int>)
    requires Counted([0], GoodRows(All, All, COUNT_BLOCK, 1), vals, cnts)
    ensures vals == [0] && cnts == [2]
  {
    var x, good := [0], GoodRows(All, All, COUNT_BLOCK, 1);
    assert x[0] in vals;
    forall j | 0 <= j < |vals| ensures vals[j] == 0 && cnts[j] == 2 {
      var rows := set r | 0 <= r < |x| && good[r] && x[r] == vals[j];
      assert CountedAt(x, good, vals[j], cnts[j]);
      assert rows == {0};
    }
    AllSame(vals);
  }

  lemma AllSame(vals: seq<int>)
    requires |vals| > 0 && forall j :: 0 <= j < |vals| ==> vals[j] == 0
    requires forall j, k :: 0 <= j < k < |vals| ==> vals[j] != vals[k]
    ensures vals == [0]
  {
    var last := |vals| - 1;
    assert vals[0] != vals[last] || last == 0;
  }

  /** One row more than a block, the last one masked off: it is counted all the same. */
  lemma MaskedOffCounted(blockSize: nat) returns (x: seq<int>, cf: Mask)
    requires blockSize > 0
    ensures |x| == blockSize + 1 && cf.Bits? && |cf.bits| == |x| && !cf.bits[blockSize]
    ensures Occurs(x, GoodRows(All, cf, blockSize, |x|), |x|, x[blockSize]) == 1
    ensures Occurs(x, MaskedRows(All, cf, |x|), |x|, x[blockSize]) == 0
  {
    var n := blockSize + 1;
    x := seq(n, i => i);
    cf := Bits(seq(n, i => i < blockSize));
    RemainderUnique(1, 0, blockSize);
    assert Good(All, cf, blockSize, blockSize);
    CountingColumn(x, GoodRows(All, cf, blockSize, n), n, blockSize);
    CountingColumn(x, MaskedRows(All, cf, n), n, blockSize);
  }
}
