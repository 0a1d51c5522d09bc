/**
 The dictionary-link records g_fld_info (q-base/src/dbauxil.c:853-1000,
 q-base/src/del_fld.c:94-131): a fixed table kept sorted by reading every
 8-byte record as one integer.
 */
module MetaLinks {

  /** FLD_INFO_TYPE; mode 0 is unused, mode 1 (fk_fld_txt_lkp) links a field to its dictionary field. */
  datatype Info = Info(mode: int, fldId: int, dictId: int)

  const ZERO_INFO := Info(0, 0, -1)
  const MAX_ID := 32767

  predicate WellFormed(r: Info) {
    r == ZERO_INFO || (r.mode == 1 && 0 <= r.fldId <= MAX_ID && 0 <= r.dictId <= MAX_ID)
  }

  /** The record read as a little-endian long long: mode, then field, then dictionary as an unsigned short. */
  function Key(r: Info): int {
    (if r.dictId < 0 then 0xFFFF else r.dictId) * 0x1_0000_0000 + r.fldId * 0x1_0000 + r.mode
  }

  ghost predicate Ordered(s: seq<Info>) {
    && (forall i :: 0 <= i < |s| ==> WellFormed(s[i]))
    && (forall i, j :: 0 <= i < j < |s| ==> Key(s[i]) <= Key(s[j]))
  }

  lemma KeyInjective(a: Info, b: Info)
    requires WellFormed(a) && WellFormed(b) && Key(a) == Key(b)
    ensures a == b
  {}

  /** Why an ascending sort puts the unused records last: their dictionary field -1 reads as 65535. */
  lemma UnusedLast(s: seq<Info>, i: nat, j: nat)
    requires Ordered(s) && i < j < |s| && s[i].mode == 0
    ensures s[j] == ZERO_INFO
  {
    assert Key(s[i]) <= Key(s[j]);
  }

  function InsertInfo(s: seq<Info>, x: Info): seq<Info> {
    if s == [] || Key(s[|s|-1]) <= Key(x) then s + [x]
    else InsertInfo(s[..|s|-1], x) + [s[|s|-1]]
  }

  /** qsort_asc_I8 over the table. */
  function SortInfo(s: seq<Info>): seq<Info> {
    if s == [] then [] else InsertInfo(SortInfo(s[..|s|-1]), s[|s|-1])
  }

  lemma {:induction false} InsertInfoContents(s: seq<Info>, x: Info)
    ensures multiset(InsertInfo(s, x)) == multiset(s) + multiset{x} && |InsertInfo(s, x)| == |s| + 1
  {
    if !(s == [] || Key(s[|s|-1]) <= Key(x)) {
      InsertInfoContents(s[..|s|-1], x);
      assert s == s[..|s|-1] + [s[|s|-1]];
    }
  }

  lemma InsertInfoMember(s: seq<Info>, x: Info, i: nat)
    requires i < |InsertInfo(s, x)|
    ensures InsertInfo(s, x)[i] == x || InsertInfo(s, x)[i] in s
  {
    InsertInfoContents(s, x);
    assert InsertInfo(s, x)[i] in multiset(InsertInfo(s, x));
  }

  lemma {:induction false} InsertInfoOrdered(s: seq<Info>, x: Info)
    requires Ordered(s) && WellFormed(x)
    ensures Ordered(InsertInfo(s, x))
  {
    if !(s == [] || Key(s[|s|-1]) <= Key(x)) {
      var s', z := s[..|s|-1], s[|s|-1];
      InsertInfoOrdered(s', x);
      var r := InsertInfo(s', x);
      forall i | 0 <= i < |r| ensures Key(r[i]) <= Key(z) {
        InsertInfoMember(s', x, i);
      }
    }
  }

  lemma {:induction false} SortInfoFacts(s: seq<Info>)
    requires forall i :: 0 <= i < |s| ==> WellFormed(s[i])
    ensures Ordered(SortInfo(s)) && multiset(SortInfo(s)) == multiset(s) && |SortInfo(s)| == |s|
  {
    if s != [] {
      var s' := s[..|s|-1];
      SortInfoFacts(s');
      InsertInfoOrdered(SortInfo(s'), s[|s|-1]);
      InsertInfoContents(SortInfo(s'), s[|s|-1]);
      assert s == s' + [s[|s|-1]];
    }
  }

  /** The greatest record comes last. */
  lemma LastIsGreatest(a: seq<Info>, x: Info)
    requires Ordered(a) && x in multiset(a)
    ensures |a| > 0 && Key(x) <= Key(a[|a|-1]) && WellFormed(x)
  {
    assert x in a;
    var i :| 0 <= i < |a| && a[i] == x;
  }

  lemma DropLast(a: seq<Info>)
    requires |a| > 0
    ensures multiset(a[..|a|-1]) == multiset(a) - multiset{a[|a|-1]}
  {
    assert a == a[..|a|-1] + [a[|a|-1]];
  }

  lemma SameLast(a: seq<Info>, b: seq<Info>)
    requires Ordered(a) && Ordered(b) && multiset(a) == multiset(b) && |a| > 0
    ensures |b| == |a| && a[|a|-1] == b[|b|-1]
  {
    assert |a| == |multiset(a)| == |multiset(b)| == |b|;
    LastIsGreatest(b, a[|a|-1]);
    LastIsGreatest(a, b[|b|-1]);
    KeyInjective(a[|a|-1], b[|b|-1]);
  }

  lemma SameRest(a: seq<Info>, b: seq<Info>)
    requires Ordered(a) && Ordered(b) && multiset(a) == multiset(b) && |a| == |b| > 0 && a[|a|-1] == b[|b|-1]
    ensures multiset(a[..|a|-1]) == multiset(b[..|b|-1]) && Ordered(a[..|a|-1]) && Ordered(b[..|b|-1])
  {
    DropLast(a);
    DropLast(b);
    PrefixOrdered(a, |a| - 1);
    PrefixOrdered(b, |b| - 1);
  }

  lemma SameWhole(a: seq<Info>, b: seq<Info>)
    requires |a| == |b| > 0 && a[|a|-1] == b[|b|-1] && a[..|a|-1] == b[..|b|-1]
    ensures a == b
  {
    assert a == a[..|a|-1] + [a[|a|-1]] && b == b[..|b|-1] + [b[|b|-1]];
  }

  lemma PrefixOrdered(a: seq<Info>, n: nat)
    requires Ordered(a) && n <= |a|
    ensures Ordered(a[..n])
  {}

  /** A sorted table is determined by its records. */
  lemma {:induction false} OrderedUnique(a: seq<Info>, b: seq<Info>)
    requires Ordered(a) && Ordered(b) && multiset(a) == multiset(b)
    ensures a == b
    decreases |a|
  {
    if a == [] {
      assert |multiset(b)| == 0;
    } else {
      SameLast(a, b);
      SameRest(a, b);
      OrderedUnique(a[..|a|-1], b[..|b|-1]);
      SameWhole(a, b);
    }
  }

  function Without(s: seq<Info>, i: nat): seq<Info>
    requires i < |s|
  {
    s[..i] + s[i+1..] + [ZERO_INFO]
  }

  lemma WithoutOrdered(s: seq<Info>, i: nat)
    requires Ordered(s) && i < |s|
    ensures Ordered(Without(s, i))
  {
    var t := Without(s, i);
    forall k | 0 <= k < |t| ensures WellFormed(t[k]) {
      if k < i { assert t[k] == s[k]; } else if k < |s| - 1 { assert t[k] == s[k+1]; }
    }
    forall k, l | 0 <= k < l < |t| ensures Key(t[k]) <= Key(t[l]) {
      var k', l' := if k < i then k else k + 1, if l < i then l else l + 1;
      assert t[k] == s[k'];
      if l < |s| - 1 { assert t[l] == s[l']; }
    }
  }

  /** Clearing record `i` of a sorted table and sorting again moves the later records down by one. */
  lemma ClearShifts(s: seq<Info>, i: nat)
    requires Ordered(s) && i < |s|
    ensures SortInfo(s[i := ZERO_INFO]) == Without(s, i) && Ordered(Without(s, i))
  {
    var c := s[i := ZERO_INFO];
    SortInfoFacts(c);
    assert c == s[..i] + [ZERO_INFO] + s[i+1..];
    WithoutOrdered(s, i);
    OrderedUnique(SortInfo(c), Without(s, i));
  }

  // ----- deleting a field's links

  /** The number of used records. */
  function Used(s: seq<Info>): (m: nat)
    ensures m <= |s|
    ensures forall i :: 0 <= i < m ==> s[i].mode != 0
    ensures m < |s| ==> s[m].mode == 0
  {
    if s == [] || s[0].mode == 0 then 0
    else
      var m := Used(s[1..]);
      assert forall i :: 0 <= i < m ==> s[1..][i] == s[i+1];
      m + 1
  }

  lemma UsedUnique(s: seq<Info>, m: nat)
    requires m <= |s| && (forall i :: 0 <= i < m ==> s[i].mode != 0) && (m < |s| ==> s[m].mode == 0)
    ensures Used(s) == m
  {
    var u := Used(s);
    assert u < |s| ==> s[u].mode == 0;
  }

  /**
   What the scan leaves of a list of links: after a removal the next record has
   moved into the current position, and the scan steps over it.
   */
  function Survivors(s: seq<Info>, f: int): seq<Info> {
    if s == [] then []
    else if s[0].fldId != f then [s[0]] + Survivors(s[1..], f)
    else if |s| == 1 then []
    else [s[1]] + Survivors(s[2..], f)
  }

  /** Two consecutive links of field `f`. */
  ghost predicate Adjacent(s: seq<Info>, f: int) {
    exists i, j :: 0 <= i < |s| && j == i + 1 && j < |s| && s[i].fldId == f && s[j].fldId == f
  }

  /** The scan removes all links of a field exactly when no two of them are next to each other in the sorted table. */
  lemma {:induction false} SurvivorsExact(s: seq<Info>, f: int)
    ensures (forall r :: r in Survivors(s, f) ==> r.fldId != f) <==> !Adjacent(s, f)
    decreases |s|
  {
    if s == [] {
    } else if s[0].fldId != f {
      SurvivorsExact(s[1..], f);
      AdjacentTail(s, 1, f);
    } else if |s| > 1 {
      SurvivorsExact(s[2..], f);
      AdjacentTail(s, 2, f);
      if s[1].fldId == f {
        assert s[1] in Survivors(s, f);
        var i, j := 0, 1;
        assert s[i].fldId == f && s[j].fldId == f && j == i + 1;
      }
    }
  }

  /** Dropping a head that does not start a pair keeps adjacency. */
  lemma AdjacentTail(s: seq<Info>, n: nat, f: int)
    requires n <= |s| && n <= 2
    ensures Adjacent(s[n..], f) ==> Adjacent(s, f)
    ensures n == 1 && s[0].fldId != f ==> (Adjacent(s, f) <==> Adjacent(s[1..], f))
    ensures n == 2 && s[0].fldId == f && s[1].fldId != f ==> (Adjacent(s, f) <==> Adjacent(s[2..], f))
  {
    if Adjacent(s[n..], f) {
      var i, j :| 0 <= i < |s[n..]| && j == i + 1 && j < |s[n..]| && s[n..][i].fldId == f && s[n..][j].fldId == f;
      var i', j' := i + n, j + n;
      assert s[i'].fldId == f && s[j'].fldId == f && j' == i' + 1;
    }
    if Adjacent(s, f) {
      var i, j :| 0 <= i < |s| && j == i + 1 && j < |s| && s[i].fldId == f && s[j].fldId == f;
      if n <= i {
        var i', j' := i - n, j - n;
        assert s[n..][i'].fldId == f && s[n..][j'].fldId == f && j' == i' + 1;
      }
    }
  }

  lemma LinksShift(s: seq<Info>, i: nat, m: nat)
    requires i < m <= |s|
    ensures Without(s, i)[..m - 1] == s[..i] + s[i+1..m]
  {
    var a, b := Without(s, i)[..m - 1], s[..i] + s[i+1..m];
    forall k | 0 <= k < m - 1 ensures a[k] == b[k] {
      if k < i { assert a[k] == s[k]; } else { assert a[k] == s[k+1]; }
    }
  }

  /** The live part of a table whose record `i` was cleared. */
  lemma UsedWithout(s: seq<Info>, i: nat)
    requires Ordered(s) && i < Used(s)
    ensures Used(Without(s, i)) == Used(s) - 1
    ensures Without(s, i)[..Used(s) - 1] == s[..i] + s[i+1..Used(s)]
  {
    var t, m := Without(s, i), Used(s);
    forall k | 0 <= k < m - 1 ensures t[k].mode != 0 {
      if k < i { assert t[k] == s[k]; } else { assert t[k] == s[k+1]; }
    }
    if m < |s| { assert t[m-1] == s[m]; }
    UsedUnique(t, m - 1);
    LinksShift(s, i, m);
  }

  /** The outcome expected once the scan stands at position `i` of the live records. */
  ghost function Cut(links: seq<Info>, i: nat, f: int): seq<Info> {
    if i >= |links| then links else links[..i] + Survivors(links[i..], f)
  }

  lemma CutKeep(links: seq<Info>, i: nat, f: int)
    requires i < |links| && links[i].fldId != f
    ensures Cut(links, i + 1, f) == Cut(links, i, f)
  {
    var rest := links[i..];
    assert rest[1..] == links[i+1..];
    assert Survivors(rest, f) == [links[i]] + Survivors(rest[1..], f);
    assert links[..i+1] == links[..i] + [links[i]];
    if i + 1 == |links| {
      assert rest[1..] == [];
      assert links == links[..i] + [links[i]];
    }
  }

  lemma CutRemove(links: seq<Info>, next: seq<Info>, i: nat, f: int)
    requires i < |links| && links[i].fldId == f && next == links[..i] + links[i+1..]
    ensures Cut(next, i + 1, f) == Cut(links, i, f)
  {
    if i + 1 < |links| {
      assert next[..i+1] == links[..i] + [links[i+1]];
      assert next[i+1..] == links[i..][2..];
    }
  }

  ghost function Pending(info: seq<Info>, i: nat, f: int): seq<Info> {
    Cut(info[..Used(info)], i, f)
  }

  /** Stepping over a record of another field, or over an unused one. */
  lemma StepOver(info: seq<Info>, i: nat, f: int)
    requires i < |info| && (i < Used(info) ==> info[i].fldId != f)
    ensures Pending(info, i + 1, f) == Pending(info, i, f)
  {
    if i < Used(info) { CutKeep(info[..Used(info)], i, f); }
  }

  lemma LinksWithout(info: seq<Info>, i: nat, m: nat)
    requires i < m <= |info|
    ensures info[..i] + info[i+1..m] == info[..m][..i] + info[..m][i+1..]
  {
    assert info[..m][..i] == info[..i] && info[..m][i+1..] == info[i+1..m];
  }

  /** Removing a link of the field. */
  lemma StepRemove(info: seq<Info>, i: nat, f: int)
    requires Ordered(info) && i < Used(info) && info[i].fldId == f
    ensures Pending(Without(info, i), i + 1, f) == Pending(info, i, f)
  {
    UsedWithout(info, i);
    LinksWithout(info, i, Used(info));
    var now := Without(info, i);
    CutRemove(info[..Used(info)], now[..Used(now)], i, f);
  }

  /** When the scan for field 0 meets an unused record: there is one, or a removal before the last record makes one. */
  ghost predicate MeetsUnused(info: seq<Info>) {
    Used(info) < |info| || exists p :: 0 <= p < |info| - 1 && info[p].fldId == 0
  }

  /** The last record is unused as soon as one is. */
  lemma LastUnused(info: seq<Info>)
    requires Ordered(info) && Used(info) < |info|
    ensures info[|info|-1] == ZERO_INFO
  {
    if Used(info) < |info| - 1 { UnusedLast(info, Used(info), |info| - 1); }
  }

  /**
   del_fld.c:94-131 for a field whose links are dictionary links.  An unused
   record has field 0, so deleting field 0 runs into the first of them and
   reports an error once all used records are behind it.
   */
  method DeleteLinks(info0: seq<Info>, f: int) returns (info: seq<Info>, status: int)
    requires Ordered(info0)
    ensures Ordered(info) && |info| == |info0|
    ensures Links(info) == Survivors(Links(info0), f)
    ensures status == if f == 0 && MeetsUnused(info0) then -1 else 0
  {
    info, status := info0, 0;
    var i := 0;
    ghost var early := false;
    while i < |info|
      invariant 0 <= i <= |info| && Scanning(info0, info, i, f, early)
      decreases |info0| - i
    {
      var next := i + 1;
      if info[i].fldId == f {
        if info[i].mode != 1 {
          ScanningEnds(info0, info, i, f, early);
          return info, -1;
        }
        var now := SortInfo(info[i := ZERO_INFO]);
        ScanningRemove(info0, info, i, f, early, now, next);
        early := early || i < |info| - 1;
        info := now;
      } else {
        ScanningOver(info0, info, i, f, early, next);
      }
      i := next;
    }
    ScanningEnds(info0, info, i, f, early);
    return info, 0;
  }

  /** The state of that loop. */
  ghost predicate Scanning(info0: seq<Info>, info: seq<Info>, i: nat, f: int, early: bool) {
    && Ordered(info) && |info| == |info0| && Pending(info, i, f) == Survivors(Links(info0), f)
    && (f == 0 ==> Scanned(info0, info, i, early))
  }

  lemma ScanningRemove(info0: seq<Info>, info: seq<Info>, i: nat, f: int, early: bool, now: seq<Info>, next: nat)
    requires Scanning(info0, info, i, f, early) && i < |info| && info[i].mode == 1 && info[i].fldId == f
    requires now == SortInfo(info[i := ZERO_INFO]) && next == i + 1
    ensures Scanning(info0, now, next, f, early || i < |info| - 1)
  {
    RemoveFacts(info, i, f);
    if f == 0 { ScanRemove(info0, info, i, early); }
  }

  lemma ScanningOver(info0: seq<Info>, info: seq<Info>, i: nat, f: int, early: bool, next: nat)
    requires Scanning(info0, info, i, f, early) && i < |info| && info[i].fldId != f && next == i + 1
    ensures Scanning(info0, info, next, f, early)
  {
    StepOver(info, i, f);
    if f == 0 { ScanOver(info0, info, i, early); }
  }

  lemma ScanningEnds(info0: seq<Info>, info: seq<Info>, i: nat, f: int, early: bool)
    requires Scanning(info0, info, i, f, early) && i <= |info|
    requires (i < |info| ==> info[i].fldId == f && info[i].mode != 1)
    ensures Links(info) == Survivors(Links(info0), f)
    ensures i < |info| ==> f == 0 && MeetsUnused(info0)
    ensures i == |info| && f == 0 ==> !MeetsUnused(info0)
  {
    PendingDone(info, i, f);
    if f == 0 && i < |info| { ScanStops(info0, info, i, early); }
    if f == 0 && i == |info| { ScanEnds(info0, info, early); }
  }

  lemma RemoveFacts(info: seq<Info>, i: nat, f: int)
    requires Ordered(info) && i < |info| && info[i].mode == 1 && info[i].fldId == f
    ensures var now := SortInfo(info[i := ZERO_INFO]);
        Ordered(now) && |now| == |info| && Pending(now, i + 1, f) == Pending(info, i, f)
  {
    UsedStart(info, i);
    StepRemove(info, i, f);
    ClearShifts(info, i);
  }

  /** The scan for field 0 after `i` records; `early` says that a record before the last one was removed. */
  ghost predicate Scanned(info0: seq<Info>, info: seq<Info>, i: nat, early: bool) {
    && |info| == |info0| && i <= Used(info0) && Used(info) <= Used(info0)
    && (early ==> MeetsUnused(info0) && Used(info) < |info| && i < |info|)
    && (!early && i < |info| ==> info == info0)
    && (!early ==> forall p :: 0 <= p < i && p < |info| - 1 ==> info0[p].fldId != 0)
  }

  lemma ScanStops(info0: seq<Info>, info: seq<Info>, i: nat, early: bool)
    requires Ordered(info) && i < |info| && info[i].mode != 1 && Scanned(info0, info, i, early)
    ensures MeetsUnused(info0)
  {
    UsedEnd(info, i);
  }

  lemma ScanRemove(info0: seq<Info>, info: seq<Info>, i: nat, early: bool)
    requires Ordered(info) && i < |info| && info[i].mode == 1 && info[i].fldId == 0 && Scanned(info0, info, i, early)
    ensures Scanned(info0, SortInfo(info[i := ZERO_INFO]), i + 1, early || i < |info| - 1)
  {
    UsedStart(info, i);
    ClearShifts(info, i);
    UsedWithout(info, i);
    if early { LastUnused(info); }
  }

  lemma ScanOver(info0: seq<Info>, info: seq<Info>, i: nat, early: bool)
    requires Ordered(info) && i < |info| && info[i].fldId != 0 && Scanned(info0, info, i, early)
    ensures Scanned(info0, info, i + 1, early)
  {
    UsedStart(info, i);
    if early { LastUnused(info); }
  }

  lemma ScanEnds(info0: seq<Info>, info: seq<Info>, early: bool)
    requires Scanned(info0, info, |info|, early)
    ensures !MeetsUnused(info0)
  {}

  lemma PendingDone(info: seq<Info>, i: nat, f: int)
    requires Ordered(info) && i <= |info| && (i < |info| ==> info[i].mode != 1)
    ensures Pending(info, i, f) == info[..Used(info)]
  {
    if i < |info| { UsedEnd(info, i); }
  }

  lemma UsedStart(s: seq<Info>, i: nat)
    requires Ordered(s) && i < |s| && s[i].mode == 1
    ensures i < Used(s)
  {
    if Used(s) < i { UnusedLast(s, Used(s), i); }
  }

  lemma UsedEnd(s: seq<Info>, i: nat)
    requires Ordered(s) && i < |s| && s[i].mode != 1
    ensures Used(s) <= i
  {}

  // ----- the links as a set

  /** The live links. */
  function Links(info: seq<Info>): (s: seq<Info>) {
    info[..Used(info)]
  }

  /** At most one link per field. */
  ghost predicate Single(s: seq<Info>) {
    forall i, j :: 0 <= i < j < |s| ==> s[i].fldId != s[j].fldId
  }

  /** With at most one link per field the scan removes that link and keeps the others. */
  lemma {:induction false} SurvivorsMembers(s: seq<Info>, f: int)
    requires Single(s)
    ensures forall r :: r in Survivors(s, f) <==> r in s && r.fldId != f
    decreases |s|
  {
    if s == [] {
    } else if s[0].fldId != f {
      SurvivorsMembers(s[1..], f);
      SplitMembers(s, 1);
    } else if |s| > 1 {
      SurvivorsMembers(s[2..], f);
      SplitMembers(s, 2);
    }
  }

  lemma SingleCons(x: Info, t: seq<Info>)
    requires Single(t) && forall r :: r in t ==> r.fldId != x.fldId
    ensures Single([x] + t)
  {}

  lemma {:induction false} SurvivorsSingle(s: seq<Info>, f: int)
    requires Single(s)
    ensures Single(Survivors(s, f))
    decreases |s|
  {
    if s == [] {
    } else if s[0].fldId != f {
      SplitMembers(s, 1);
      SurvivorsSingle(s[1..], f);
      SurvivorsMembers(s[1..], f);
      SingleCons(s[0], Survivors(s[1..], f));
    } else if |s| > 1 {
      SplitMembers(s, 2);
      SurvivorsSingle(s[2..], f);
      SurvivorsMembers(s[2..], f);
      SingleCons(s[1], Survivors(s[2..], f));
    }
  }

  lemma SplitMembers(s: seq<Info>, n: nat)
    requires 1 <= n <= 2 && n <= |s| && Single(s)
    ensures n == 1 ==> forall r :: r in s <==> r == s[0] || r in s[1..]
    ensures n == 2 ==> forall r :: r in s <==> r == s[0] || r == s[1] || r in s[2..]
    ensures Single(s[n..])
    ensures forall r :: r in s[n..] ==> r.fldId != s[0].fldId && (n == 2 ==> r.fldId != s[1].fldId)
  {
    if n == 1 { assert s == [s[0]] + s[1..]; } else { assert s == [s[0], s[1]] + s[2..]; }
  }

  /** add_to_fld_info for a dictionary link. */
  method AddLink(info0: seq<Info>, f: int, d: int) returns (info: seq<Info>, status: int)
    requires Ordered(info0) && 0 <= f <= MAX_ID && 0 <= d <= MAX_ID
    ensures Ordered(info) && |info| == |info0|
    ensures status == if Used(info0) == |info0| then -1 else 0
    ensures status != 0 ==> info == info0
    ensures status == 0 ==> multiset(Links(info)) == multiset(Links(info0)) + multiset{Info(1, f, d)}
  {
    info := info0;
    var i := 0;
    while i < |info| && info[i].mode != 0
      invariant 0 <= i <= |info| && info == info0
      invariant forall k :: 0 <= k < i ==> info[k].mode != 0
    {
      i := i + 1;
    }
    UsedUnique(info0, i);
    if i == |info| { return info, -1; }
    info := info[i := Info(1, f, d)];
    ghost var filled := info;
    SortInfoFacts(filled);
    info := SortInfo(info);
    status := 0;
    FilledLinks(info0, info, i, Info(1, f, d));
  }

  lemma TailUnused(s: seq<Info>, m: nat)
    requires Ordered(s) && m == Used(s)
    ensures s[m..] == seq(|s| - m, _ => ZERO_INFO)
  {
    forall k | m <= k < |s| ensures s[k] == ZERO_INFO {
      if k > m { UnusedLast(s, m, k); } else { assert s[m].mode == 0; }
    }
  }

  lemma {:induction false} UnusedCount(n: nat, x: Info)
    ensures multiset(seq(n, _ => ZERO_INFO))[x] == if x == ZERO_INFO then n else 0
  {
    if n > 0 {
      UnusedCount(n - 1, x);
      assert seq(n, _ => ZERO_INFO) == seq(n - 1, _ => ZERO_INFO) + [ZERO_INFO];
    }
  }

  /** How often a record occurs: the live ones as in the links, the unused ones as often as there is room. */
  lemma LinksCount(s: seq<Info>, x: Info)
    requires Ordered(s)
    ensures x.mode != 0 ==> multiset(Links(s))[x] == multiset(s)[x]
    ensures x.mode == 0 ==> multiset(Links(s))[x] == 0
  {
    var m := Used(s);
    TailUnused(s, m);
    UnusedCount(|s| - m, x);
    assert s == s[..m] + s[m..];
    assert forall k :: 0 <= k < m ==> s[..m][k].mode != 0;
    assert x.mode == 0 ==> x !in s[..m];
  }

  lemma FilledLinks(was: seq<Info>, now: seq<Info>, i: nat, r: Info)
    requires Ordered(was) && Ordered(now) && i < |was| && was[i].mode == 0 && r.mode != 0
    requires multiset(now) == multiset(was[i := r])
    ensures multiset(Links(now)) == multiset(Links(was)) + multiset{r}
  {
    forall x ensures multiset(Links(now))[x] == (multiset(Links(was)) + multiset{r})[x] {
      LinksCount(was, x);
      LinksCount(now, x);
    }
  }

  // ----- two tables

  /** Two links of field 5 are neighbours: deleting the field leaves the second. */
  lemma NeighbourSurvives() returns (info: seq<Info>)
    ensures info == [Info(1, 5, 2), Info(1, 5, 3), ZERO_INFO] && Ordered(info)
    ensures Survivors(Links(info), 5) == [Info(1, 5, 3)]
  {
    info := [Info(1, 5, 2), Info(1, 5, 3), ZERO_INFO];
    UsedUnique(info, 2);
    var links := Links(info);
    assert links == [Info(1, 5, 2), Info(1, 5, 3)];
    assert links[2..] == [];
    assert Survivors(links, 5) == [links[1]] + Survivors(links[2..], 5);
  }

  /** Deleting field 0: its one link is removed and the call reports an error, because there is an unused record. */
  lemma FieldZeroFails() returns (info: seq<Info>)
    ensures info == [Info(1, 0, 7), ZERO_INFO] && Ordered(info)
    ensures Survivors(Links(info), 0) == [] && MeetsUnused(info)
  {
    info := [Info(1, 0, 7), ZERO_INFO];
    UsedUnique(info, 1);
    assert Links(info) == [Info(1, 0, 7)];
  }
}
