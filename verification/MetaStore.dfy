/**
 The operations on tables, fields, null-flag companions and dictionary links
 (q-base/src/add_tbl.c, add_fld.c, add_aux_fld.c, drop_aux_fld.c,
 break_nn_fld.c, del_fld.c, del_tbl.c).  Every operation keeps the invariant
 `Inv`, whether it succeeds or not, and unlinks exactly the files whose owner
 it removes.
 */
module MetaStore {
  import opened MetaLinks
  import opened MetaRecords
  import opened MetaUpdates

  // ----- lookups: a scan from a hint to the end, then from the start to the hint

  ghost predicate Named(flds: seq<Fld>, t: int, name: string, e: int) {
    0 <= e < |flds| && flds[e].tblId == t && flds[e].name == name
  }

  /** The record of that name, -1 when there is none. */
  ghost function Where(flds: seq<Fld>, t: int, name: string): (e: int)
    ensures e == -1 || Named(flds, t, name, e)
    ensures (exists k :: Named(flds, t, name, k)) ==> e >= 0
  {
    if exists e :: Named(flds, t, name, e) then var e :| Named(flds, t, name, e); e else -1
  }

  lemma WhereUnique(tbls: seq<Tbl>, flds: seq<Fld>, t: int, name: string, e: int)
    requires RecordsOK(tbls, flds) && PairsOK(flds) && NamesOK(flds) && name != "" && Named(flds, t, name, e)
    ensures Where(flds, t, name) == e
  {
    var w := Where(flds, t, name);
    assert Named(flds, t, name, w);
    if w != e { AllNamesDiffer(flds, tbls, w, e); }
  }

  lemma WhereNone(flds: seq<Fld>, t: int, name: string)
    requires forall e :: 0 <= e < |flds| ==> flds[e].tblId != t || flds[e].name != name
    ensures Where(flds, t, name) == -1
  {}

  ghost function TableAt(tbls: seq<Tbl>, name: string): (t: int)
    ensures t == -1 || (0 <= t < |tbls| && tbls[t].name == name)
    ensures t == -1 ==> forall k :: 0 <= k < |tbls| ==> tbls[k].name != name
  {
    if exists t :: 0 <= t < |tbls| && tbls[t].name == name then
      var t :| 0 <= t < |tbls| && tbls[t].name == name;
      t
    else
      -1
  }

  /** The field of a named table; -1 when there is no such table or field. */
  ghost function FieldAt(tbls: seq<Tbl>, flds: seq<Fld>, tbl: string, fld: string): (p: int)
    ensures p == -1 || 0 <= p < |flds|
    ensures p >= 0 ==> tbl != "" && fld != "" && Named(flds, TableAt(tbls, tbl), fld, p)
  {
    if tbl == "" || fld == "" || TableAt(tbls, tbl) < 0 then -1 else Where(flds, TableAt(tbls, tbl), fld)
  }

  /** is_fld. */
  method FindFld(flds: seq<Fld>, t: int, name: string, start: nat) returns (id: int)
    requires start < |flds|
    ensures id == -1 ==> forall e :: 0 <= e < |flds| ==> flds[e].tblId != t || flds[e].name != name
    ensures id != -1 ==> Named(flds, t, name, id)
  {
    var i := start;
    while i < |flds|
      invariant start <= i <= |flds|
      invariant forall e :: start <= e < i ==> flds[e].tblId != t || flds[e].name != name
    {
      if flds[i].tblId == t && flds[i].name == name { return i; }
      i := i + 1;
    }
    i := 0;
    while i < start
      invariant 0 <= i <= start
      invariant forall e :: 0 <= e < i ==> flds[e].tblId != t || flds[e].name != name
    {
      if flds[i].tblId == t && flds[i].name == name { return i; }
      i := i + 1;
    }
    return -1;
  }

  /** is_tbl. */
  method FindTbl(tbls: seq<Tbl>, name: string, start: nat) returns (id: int)
    requires start < |tbls|
    ensures id == -1 ==> forall t :: 0 <= t < |tbls| ==> tbls[t].name != name
    ensures id != -1 ==> 0 <= id < |tbls| && tbls[id].name == name
  {
    var i := start;
    while i < |tbls|
      invariant start <= i <= |tbls|
      invariant forall t :: start <= t < i ==> tbls[t].name != name
    {
      if tbls[i].name == name { return i; }
      i := i + 1;
    }
    i := 0;
    while i < start
      invariant 0 <= i <= start
      invariant forall t :: 0 <= t < i ==> tbls[t].name != name
    {
      if tbls[i].name == name { return i; }
      i := i + 1;
    }
    return -1;
  }

  /** get_empty_fld: from the hashed position to the end, then from the start to it. */
  method GetEmptyFld(flds: seq<Fld>, start: nat) returns (id: int)
    requires start < |flds|
    ensures id == -1 ==> forall e :: 0 <= e < |flds| ==> Live(flds[e])
    ensures id != -1 ==> 0 <= id < |flds| && !Live(flds[id])
  {
    var i := start;
    while i < |flds|
      invariant start <= i <= |flds|
      invariant forall e :: start <= e < i ==> Live(flds[e])
    {
      if !Live(flds[i]) { return i; }
      i := i + 1;
    }
    i := 0;
    while i < start
      invariant 0 <= i <= start
      invariant forall e :: 0 <= e < i ==> Live(flds[e])
    {
      if !Live(flds[i]) { return i; }
      i := i + 1;
    }
    return -1;
  }

  /** The usage check of del_fld: is `d` the dictionary of some field? */
  method IsDictionary(info: seq<Info>, d: int) returns (used: bool)
    requires Ordered(info)
    ensures used <==> Dictionary(info, d)
  {
    var i := 0;
    while i < |info|
      invariant 0 <= i <= |info|
      invariant forall k :: 0 <= k < i ==> info[k].mode != 1 || info[k].dictId != d
    {
      if info[i].mode == 1 && info[i].dictId == d {
        UsedStart(info, i);
        assert info[i] == Links(info)[i];
        return true;
      }
      i := i + 1;
    }
    return false;
  }

  ghost predicate Dictionary(info: seq<Info>, d: int) {
    exists r :: r in Links(info) && r.dictId == d
  }

  // ----- deleting a field

  /** The records once field `i` and its companion are cleared. */
  function Removed(flds: seq<Fld>, i: int): seq<Fld>
    requires 0 <= i < |flds|
  {
    var c := flds[i].nnFldId;
    if 0 <= c < |flds| then flds[i := ZERO_FLD][c := ZERO_FLD] else flds[i := ZERO_FLD]
  }

  function RemovedFiles(flds: seq<Fld>, i: int): set<File>
    requires 0 <= i < |flds|
  {
    var c := flds[i].nnFldId;
    if 0 <= c < |flds| then {FileOf(flds[i]), FileOf(flds[c])} else {FileOf(flds[i])}
  }

  ghost predicate Refused(flds: seq<Fld>, info: seq<Info>, i: int)
    requires 0 <= i < |flds|
  {
    Dictionary(info, i) || flds[i].aux == NN
  }

  /** The files that lost their owner, and no others, are gone. */
  ghost predicate Kept(flds0: seq<Fld>, files0: Files, flds1: seq<Fld>, files1: Files) {
    files1 == files0 - (Owned(flds0) - Owned(flds1))
  }

  lemma TwoFiles(files: Files, a: File, b: File)
    ensures files - {a} - {b} == files - {b, a}
  {}

  lemma TwoOwners(s: set<File>, a: File, b: File)
    ensures s - {a} - {b} == s - {b, a}
  {}

  lemma DropThenClear(flds: seq<Fld>, i: int)
    requires 0 <= i < |flds| && 0 <= flds[i].nnFldId < |flds|
    ensures Drop(flds, i, flds[i].nnFldId)[i := ZERO_FLD] == Removed(flds, i)
  {}

  lemma RemoveBoth(tbls: seq<Tbl>, flds: seq<Fld>, info: seq<Info>, files: Files, i: int, c: int, now: seq<Info>)
    requires Inv(tbls, flds, info, files) && Paired(flds, i, c) && !Refused(flds, info, i)
    requires Ordered(now) && Links(now) == Survivors(Links(info), i)
    ensures var mid := Drop(flds, i, c);
            && Inv(tbls, mid[i := ZERO_FLD], now, files - {FileOf(flds[c])} - {FileOf(flds[i])})
            && Owned(mid[i := ZERO_FLD]) == Owned(flds) - {FileOf(flds[c])} - {FileOf(flds[i])}
  {
    var mid := Drop(flds, i, c);
    DropKeeps(tbls, flds, info, files, i, c);
    PairFacts(flds, i, c);
    assert Alone(mid, i) && FileOf(mid[i]) == FileOf(flds[i]);
    ClearKeeps(tbls, mid, info, files - {FileOf(flds[c])}, i, now);
  }

  /** Deleting a field that is no companion and nobody's dictionary. */
  lemma RemoveKeeps(tbls: seq<Tbl>, flds: seq<Fld>, info: seq<Info>, files: Files, i: int, now: seq<Info>)
    requires Inv(tbls, flds, info, files) && 0 <= i < |flds| && Live(flds[i]) && !Refused(flds, info, i)
    requires Ordered(now) && Links(now) == Survivors(Links(info), i)
    ensures Inv(tbls, Removed(flds, i), now, files - RemovedFiles(flds, i))
    ensures Owned(Removed(flds, i)) == Owned(flds) - RemovedFiles(flds, i)
  {
    assert RecordOK(tbls, flds[i]) && DownOK(flds, i);
    var c := flds[i].nnFldId;
    if c >= 0 {
      RemoveBoth(tbls, flds, info, files, i, c, now);
      DropThenClear(flds, i);
      TwoFiles(files, FileOf(flds[c]), FileOf(flds[i]));
      TwoOwners(Owned(flds), FileOf(flds[c]), FileOf(flds[i]));
    } else {
      ClearKeeps(tbls, flds, info, files, i, now);
    }
  }

  lemma RemoveKept(flds: seq<Fld>, files: Files, i: int)
    requires 0 <= i < |flds| && Live(flds[i]) && PairsOK(flds)
    requires Owned(Removed(flds, i)) == Owned(flds) - RemovedFiles(flds, i)
    ensures Kept(flds, files, Removed(flds, i), files - RemovedFiles(flds, i))
  {
    OwnFiles(flds, i);
    assert Owned(flds) - Owned(Removed(flds, i)) == RemovedFiles(flds, i);
  }

  lemma OwnFiles(flds: seq<Fld>, i: int)
    requires 0 <= i < |flds| && Live(flds[i]) && PairsOK(flds)
    ensures RemovedFiles(flds, i) <= Owned(flds)
  {
    assert DownOK(flds, i);
    if flds[i].nnFldId >= 0 { PairFacts(flds, i, flds[i].nnFldId); }
  }

  /** What del_fld does to a live record. */
  ghost predicate Deletes(flds0: seq<Fld>, info0: seq<Info>, i: int, flds1: seq<Fld>, info1: seq<Info>, status: int)
    requires 0 <= i < |flds0|
  {
    if Refused(flds0, info0, i) then
      status == -1 && flds1 == flds0 && info1 == info0
    else
      && flds1 == Removed(flds0, i) && Links(info1) == Survivors(Links(info0), i) && |info1| == |info0|
      && status == if i == 0 && MeetsUnused(info0) then -1 else 0
  }

  lemma KeptSame(flds: seq<Fld>, files: Files)
    ensures Kept(flds, files, flds, files)
  {}

  /** Two operations in a row, of which the first only removes. */
  lemma KeptThen(flds0: seq<Fld>, files0: Files, flds1: seq<Fld>, files1: Files, flds2: seq<Fld>, files2: Files)
    requires Kept(flds0, files0, flds1, files1) && Kept(flds1, files1, flds2, files2)
    requires Owned(flds1) <= Owned(flds0) && FilesOK(flds2, files2)
    ensures Kept(flds0, files0, flds2, files2)
  {
    var a, b, c := Owned(flds0), Owned(flds1), Owned(flds2);
    forall x | x in files0 ensures x in files2 <==> x !in a - c {
      if x in c { OwnedExists(flds2, files2, x); }
    }
  }

  lemma OwnedExists(flds: seq<Fld>, files: Files, x: File)
    requires FilesOK(flds, files) && x in Owned(flds)
    ensures x in files
  {}

  /** Acceptance of add_fld before anything is changed. */
  ghost predicate Acceptable(tbls: seq<Tbl>, files: Files, nDdir: nat, f: Fld) {
    && f.fldtype != Undef && GoodName(f.name) && f.fileno > 0 && 0 <= f.ddirId < nDdir
    && 0 <= f.tblId < |tbls| && tbls[f.tblId].nR > 0
    && FileOf(f) in files && SizeFits(tbls[f.tblId].nR, f.fldtype, f.len, files[FileOf(f)])
  }

  /** The records once the field of that name is out of the way. */
  ghost function Room(flds: seq<Fld>, info: seq<Info>, t: int, name: string): seq<Fld> {
    var e := Where(flds, t, name);
    if 0 <= e < |flds| && !Refused(flds, info, e) then Removed(flds, e) else flds
  }

  ghost function RoomLinks(flds: seq<Fld>, info: seq<Info>, t: int, name: string): seq<Info> {
    var e := Where(flds, t, name);
    if 0 <= e < |flds| && !Refused(flds, info, e) then Survivors(Links(info), e) else Links(info)
  }

  /** No record to write to: the old field is a dictionary, it sat in record 0, or all records are taken. */
  ghost predicate NoRoom(flds: seq<Fld>, info: seq<Info>, t: int, name: string) {
    var e := Where(flds, t, name);
    if 0 <= e < |flds| then Refused(flds, info, e) || (e == 0 && MeetsUnused(info))
    else forall i :: 0 <= i < |flds| ==> Live(flds[i])
  }

  /** Once the old field is out of the way no record of the table has the name. */
  lemma RoomClears(tbls: seq<Tbl>, flds: seq<Fld>, t: int, name: string, e: int)
    requires RecordsOK(tbls, flds) && PairsOK(flds) && NamesOK(flds) && name != "" && Named(flds, t, name, e)
    ensures Where(Removed(flds, e), t, name) == -1 && Where(flds, t, name) == e
  {
    WhereUnique(tbls, flds, t, name, e);
    var now, k := Removed(flds, e), Where(Removed(flds, e), t, name);
    if k >= 0 {
      assert now[k] != ZERO_FLD;
      assert Named(flds, t, name, k) && k != e;
      WhereUnique(tbls, flds, t, name, k);
    }
  }

  lemma RoomOutcome(tbls: seq<Tbl>, flds: seq<Fld>, info: seq<Info>, t: int, name: string, flds1: seq<Fld>,
                    info1: seq<Info>, status: int)
    requires RecordsOK(tbls, flds) && PairsOK(flds) && NamesOK(flds) && name != ""
    requires var e := Where(flds, t, name);
             if e < 0 then status == 0 && flds1 == flds && info1 == info
             else Deletes(flds, info, e, flds1, info1, status)
    ensures flds1 == Room(flds, info, t, name) && Links(info1) == RoomLinks(flds, info, t, name)
    ensures status < 0 ==> NoRoom(flds, info, t, name)
    ensures status >= 0 ==> Where(flds1, t, name) == -1
    ensures status >= 0 ==> (NoRoom(flds, info, t, name) <==> forall i :: 0 <= i < |flds1| ==> Live(flds1[i]))
  {
    var e := Where(flds, t, name);
    if e >= 0 {
      RoomClears(tbls, flds, t, name, e);
      if status >= 0 { assert !Live(flds1[e]); }
    }
  }

  lemma InsertableRecord(tbls: seq<Tbl>, flds: seq<Fld>, info: seq<Info>, files0: Files, files: Files, nDdir: nat,
                         d: int, f: Fld)
    requires Inv(tbls, flds, info, files) && Acceptable(tbls, files0, nDdir, f) && f.aux == Primary && f.nnFldId == -1
    requires f.parentId == -1
    requires FileOf(f) in files && f.filesz == files[FileOf(f)] == files0[FileOf(f)] && FileOf(f) !in Owned(flds)
    requires 0 <= d < |flds| && flds[d] == ZERO_FLD && Where(flds, f.tblId, f.name) == -1
    ensures Insertable(tbls, flds, files, d, f)
  {
    forall j | 0 <= j < |flds| && flds[j].tblId == f.tblId ensures flds[j].name != f.name {
      assert !Named(flds, f.tblId, f.name, j);
    }
  }

  /** A file that nobody owned is not unlinked. */
  lemma StillThere(flds0: seq<Fld>, files0: Files, flds1: seq<Fld>, files1: Files, x: File)
    requires Kept(flds0, files0, flds1, files1) && x in files0 && x !in Owned(flds0)
    ensures x in files1 && files1[x] == files0[x]
  {}

  /** Making room only removes owners. */
  lemma RoomOwned(tbls: seq<Tbl>, flds: seq<Fld>, info: seq<Info>, files: Files, t: int, name: string)
    requires Inv(tbls, flds, info, files) && name != ""
    ensures Owned(Room(flds, info, t, name)) <= Owned(flds)
  {
    var now := Room(flds, info, t, name);
    forall g | g in Owned(now) ensures g in Owned(flds) {
      var j :| 0 <= j < |now| && Live(now[j]) && FileOf(now[j]) == g;
      assert now[j] == flds[j];
    }
  }

  /** The records once the companion of `p`, if any, is gone. */
  function Bare(flds: seq<Fld>, p: int): seq<Fld>
    requires 0 <= p < |flds|
  {
    var c := flds[p].nnFldId;
    if 0 <= c < |flds| then Drop(flds, p, c) else flds
  }

  lemma BareKept(flds: seq<Fld>, files: Files, c: int, now: seq<Fld>)
    requires 0 <= c < |flds| && Live(flds[c]) && Owned(now) == Owned(flds) - {FileOf(flds[c])}
    ensures Kept(flds, files, now, files - {FileOf(flds[c])})
  {
    assert Owned(flds) - Owned(now) == {FileOf(flds[c])};
  }

  /** The file and name checks of add_aux_fld, made after the old companion is gone. */
  ghost predicate AuxAcceptable(files: Files, nDdir: nat, parent: string, x: File) {
    && 0 <= x.ddir < nDdir && x in files && files[x] > 0
    && GoodName(parent) && |parent| + |NN_PREFIX| <= MAX_LEN_NAME
  }

  /** What add_aux_fld makes of the records `bare`, in which field `p` has no companion. */
  ghost predicate Companion(files: Files, nDdir: nat, bare: seq<Fld>, p: int, fldtype: FldType, x: File, now: seq<Fld>,
                            id: int)
    requires 0 <= p < |bare|
  {
    if AuxAcceptable(files, nDdir, bare[p].name, x) && exists i :: 0 <= i < |bare| && !Live(bare[i]) then
      && 0 <= id < |bare| && bare[id] == ZERO_FLD
      && now == Attach(bare, p, id, Fld(NN_PREFIX + bare[p].name, bare[p].tblId, x.ddir, x.no, files[x], p, -1, NN,
          fldtype, 0))
    else
      id == -1 && now == bare
  }

  /** A file that the new companion got was not among those unlinked with the old one. */
  lemma AttachedFile(flds0: seq<Fld>, files0: Files, flds1: seq<Fld>, files1: Files, x: File, id: int, nDdir: nat,
                     p: int, fldtype: FldType, now: seq<Fld>)
    requires Kept(flds0, files0, flds1, files1) && Owned(flds1) <= Owned(flds0) && 0 <= p < |flds1|
    requires Companion(files1, nDdir, flds1, p, fldtype, x, now, id)
    ensures id != -1 ==> (x in Owned(flds0) <==> x in Owned(flds1))
  {}

  /** Only primary fields have names that pass chk_fld_name. */
  lemma GoodNamePrimary(tbls: seq<Tbl>, flds: seq<Fld>, p: int)
    requires RecordsOK(tbls, flds) && PairsOK(flds) && 0 <= p < |flds| && GoodName(flds[p].name)
    ensures flds[p].aux == Primary
  {
    assert UpOK(flds, p);
    assert NameChar(flds[p].name[0]);
  }

  /** Making room for `name` leaves a field of another name, and its companion, alone. */
  lemma RoomSpares(tbls: seq<Tbl>, flds: seq<Fld>, info: seq<Info>, t: int, name: string, p: int, c: int)
    requires RecordsOK(tbls, flds) && PairsOK(flds) && NamesOK(flds) && GoodName(name)
    requires Paired(flds, p, c) && flds[p].name != name
    ensures |Room(flds, info, t, name)| == |flds| && Room(flds, info, t, name)[p] == flds[p]
    ensures Room(flds, info, t, name)[c] == flds[c]
  {
    PairFacts(flds, p, c);
    var e := Where(flds, t, name);
    if 0 <= e < |flds| {
      GoodNamePrimary(tbls, flds, e);
      assert DownOK(flds, e) && e != p && e != c;
      assert flds[e].nnFldId != p && flds[e].nnFldId != c;
    }
  }

  /** Handing the companion's file over: the companion goes, the new field comes. */
  lemma HandOver(tbls: seq<Tbl>, flds: seq<Fld>, info: seq<Info>, files0: Files, files: Files, nDdir: nat, p: int,
                 c: int, d: int, f: Fld)
    requires Inv(tbls, flds, info, files) && Paired(flds, p, c)
    requires 0 <= d < |flds| && flds[d] == ZERO_FLD && Where(flds, f.tblId, f.name) == -1
    requires Acceptable(tbls, files0, nDdir, f) && f.aux == Primary && f.nnFldId == -1 && f.parentId == -1
    requires FileOf(f) == FileOf(flds[c]) && f.filesz == flds[c].filesz == files0[FileOf(f)]
    ensures Inv(tbls, Drop(flds, p, c)[d := f], info, files)
    ensures Owned(Drop(flds, p, c)[d := f]) == Owned(flds)
  {
    var mid := Drop(flds, p, c);
    PairFacts(flds, p, c);
    DropKeeps(tbls, flds, info, files, p, c);
    BareNames(flds, p, c, f.tblId, f.name);
    InsertableRecord(tbls, mid, info, files0, files, nDdir, d, f);
    InsertKeeps(tbls, mid, info, files, d, f);
    assert FileOf(f) in Owned(flds);
  }

  lemma MoveOrder(flds: seq<Fld>, p: int, c: int, d: int, f: Fld)
    requires 0 <= p < |flds| && 0 <= c < |flds| && 0 <= d < |flds| && p != c && p != d && c != d
    ensures flds[d := f][c := ZERO_FLD][p := flds[p].(nnFldId := -1)] == Drop(flds, p, c)[d := f]
  {}

  lemma KeptMoved(flds0: seq<Fld>, files0: Files, flds1: seq<Fld>, flds2: seq<Fld>, files: Files)
    requires Kept(flds0, files0, flds1, files) && Owned(flds2) == Owned(flds1)
    ensures Kept(flds0, files0, flds2, files)
  {}

  lemma BareNames(flds: seq<Fld>, p: int, c: int, t: int, name: string)
    requires 0 <= p < |flds| && 0 <= c < |flds| && p != c && Where(flds, t, name) == -1 && name != ""
    ensures Where(Drop(flds, p, c), t, name) == -1
  {
    var now := Drop(flds, p, c);
    forall e | 0 <= e < |now| ensures now[e].tblId != t || now[e].name != name {
      assert !Named(flds, t, name, e);
    }
    WhereNone(now, t, name);
  }

  /** The primary field that takes over a companion's file. */
  function NewPrimary(c: Fld, d: int, name: string): Fld {
    Fld(name, d, c.ddirId, c.fileno, c.filesz, -1, -1, Primary, c.fldtype, 0)
  }

  /** The checks of break_nn_fld: source field `p`, its table `s`, destination table `d`. */
  ghost predicate Breakable(tbls: seq<Tbl>, flds: seq<Fld>, files: Files, nDdir: nat, p: int, d: int, s: int,
                            dstTbl: string, dstFld: string) {
    && 0 <= p < |flds| && 0 <= flds[p].nnFldId < |flds| && dstTbl != "" && dstFld != ""
    && 0 <= d < |tbls| && 0 <= s < |tbls| && tbls[s].nR == tbls[d].nR
    && Acceptable(tbls, files, nDdir, NewPrimary(flds[flds[p].nnFldId], d, dstFld))
  }

  /** What break_nn_fld leaves: room made for the new field, then the companion's record moved there. */
  ghost predicate Broken(flds0: seq<Fld>, info0: seq<Info>, p: int, d: int, name: string, flds: seq<Fld>,
                         info: seq<Info>, id: int) {
    var room := Room(flds0, info0, d, name);
    && 0 <= p < |flds0| && 0 <= flds0[p].nnFldId < |flds0| && |room| == |flds0|
    && Links(info) == RoomLinks(flds0, info0, d, name)
    && (id == -1 <==> NoRoom(flds0, info0, d, name))
    && (id == -1 ==> flds == room)
    && (id != -1 ==>
          && 0 <= id < |room| && room[id] == ZERO_FLD && room[p] == flds0[p]
          && flds == Drop(room, p, flds0[p].nnFldId)[id := NewPrimary(flds0[flds0[p].nnFldId], d, name)])
  }

  // ----- deleting a table

  /** Records of table `t` may be cleared, all others stay. */
  ghost predicate OnlyFrom(flds0: seq<Fld>, t: int, flds1: seq<Fld>) {
    |flds1| == |flds0| && forall j :: 0 <= j < |flds0| ==>
        flds1[j] == flds0[j] || (flds1[j] == ZERO_FLD && flds0[j].tblId == t)
  }

  /** Links of fields of table `t` may go, all others stay. */
  ghost predicate OnlyLinksFrom(flds0: seq<Fld>, info0: seq<Info>, t: int, info1: seq<Info>) {
    && (forall r :: r in Links(info1) ==> r in Links(info0))
    && (forall r :: r in Links(info0) && !(0 <= r.fldId < |flds0| && flds0[r.fldId].tblId == t) ==> r in Links(info1))
  }

  lemma DeletesOnlyFrom(flds0: seq<Fld>, info0: seq<Info>, i: int, flds1: seq<Fld>, info1: seq<Info>, status: int)
    requires PairsOK(flds0) && LinksOK(flds0, info0) && 0 <= i < |flds0| && Live(flds0[i])
    requires Deletes(flds0, info0, i, flds1, info1, status)
    ensures OnlyFrom(flds0, flds0[i].tblId, flds1) && OnlyLinksFrom(flds0, info0, flds0[i].tblId, info1)
  {
    assert DownOK(flds0, i);
    SurvivorsMembers(Links(info0), i);
  }

  lemma OnlyFromThen(a: seq<Fld>, b: seq<Fld>, c: seq<Fld>, t: int)
    requires OnlyFrom(a, t, b) && OnlyFrom(b, t, c) && t >= 0
    ensures OnlyFrom(a, t, c)
  {}

  lemma OnlyLinksThen(a: seq<Fld>, i0: seq<Info>, b: seq<Fld>, i1: seq<Info>, i2: seq<Info>, t: int)
    requires OnlyFrom(a, t, b) && t >= 0 && OnlyLinksFrom(a, i0, t, i1) && OnlyLinksFrom(b, i1, t, i2)
    ensures OnlyLinksFrom(a, i0, t, i2)
  {
    forall r | r in Links(i0) && !(0 <= r.fldId < |a| && a[r.fldId].tblId == t) ensures r in Links(i2) {
      assert r in Links(i1);
    }
  }

  lemma OnlyFromOwned(a: seq<Fld>, b: seq<Fld>, t: int)
    requires OnlyFrom(a, t, b)
    ensures Owned(b) <= Owned(a)
  {
    forall g | g in Owned(b) ensures g in Owned(a) {
      var j :| 0 <= j < |b| && Live(b[j]) && FileOf(b[j]) == g;
      assert b[j] == a[j];
    }
  }

  /** Part of table `t` is gone, with its files and links, and nothing else. */
  ghost predicate Deleting(flds0: seq<Fld>, info0: seq<Info>, files0: Files, t: int, flds: seq<Fld>, info: seq<Info>,
                           files: Files) {
    Kept(flds0, files0, flds, files) && OnlyFrom(flds0, t, flds) && OnlyLinksFrom(flds0, info0, t, info)
  }

  ghost predicate PrimariesGone(flds: seq<Fld>, t: int, n: int) {
    forall j :: 0 <= j < n && j < |flds| ==> !(flds[j].tblId == t && flds[j].aux == Primary)
  }

  lemma GoneStep(flds0: seq<Fld>, flds: seq<Fld>, t: int, i: int)
    requires PrimariesGone(flds0, t, i) && 0 <= i < |flds| && OnlyFrom(flds0, t, flds) && t >= 0
    requires !(flds[i].tblId == t && flds[i].aux == Primary)
    ensures PrimariesGone(flds, t, i + 1)
  {}

  /** Without primary fields a table has no companions either. */
  lemma NoneLeft(flds: seq<Fld>, t: int)
    requires PairsOK(flds) && PrimariesGone(flds, t, |flds|)
    ensures forall j :: 0 <= j < |flds| ==> flds[j].tblId != t
  {
    forall j | 0 <= j < |flds| ensures flds[j].tblId != t {
      assert UpOK(flds, j);
      if flds[j].aux == NN { assert DownOK(flds, flds[j].parentId); }
    }
  }

  /**
   The primary field in record `k` of table `t` cannot be deleted when its
   turn comes: it is the dictionary of a field that is still there, or it
   sits in record 0 and the link scan meets an unused record.
   */
  ghost predicate Blocked(flds: seq<Fld>, info: seq<Info>, t: int, k: int) {
    || (exists r :: r in Links(info) && r.dictId == k && !EarlierOf(flds, t, k, r))
    || (k == 0 && MeetsUnused(info))
  }

  /** The link's field belongs to table `t` and is deleted before record `k`. */
  predicate EarlierOf(flds: seq<Fld>, t: int, k: int, r: Info) {
    0 <= r.fldId < |flds| && r.fldId < k && flds[r.fldId].tblId == t
  }

  /** No primary field of the table is blocked. */
  ghost predicate Deletable(flds: seq<Fld>, info: seq<Info>, t: int) {
    forall k {:trigger Blocked(flds, info, t, k)} ::
      0 <= k < |flds| && flds[k].tblId == t && flds[k].aux == Primary ==> !Blocked(flds, info, t, k)
  }

  /** The state of the loop before record `i`: earlier fields of the table had their turn, later ones are untouched. */
  ghost predicate Turn(flds0: seq<Fld>, info0: seq<Info>, t: int, i: int, flds: seq<Fld>, info: seq<Info>) {
    && Untouched(flds0, i, flds)
    && LinksLeft(flds0, info0, t, i, info)
    && (i == 0 ==> info == info0)
    && NoneBlocked(flds0, info0, t, i)
  }

  /** Primary fields from record `i` on are as they were. */
  ghost predicate Untouched(flds0: seq<Fld>, i: int, flds: seq<Fld>) {
    |flds| == |flds0| && forall j :: i <= j < |flds0| && 0 <= j && flds0[j].aux == Primary ==> flds[j] == flds0[j]
  }

  /** The links of the table's fields before record `i` are gone, and no others. */
  ghost predicate LinksLeft(flds0: seq<Fld>, info0: seq<Info>, t: int, i: int, info: seq<Info>) {
    forall r :: r in Links(info) <==> r in Links(info0) && !EarlierOf(flds0, t, i, r)
  }

  /** No primary field of the table before record `i` is blocked. */
  ghost predicate NoneBlocked(flds0: seq<Fld>, info0: seq<Info>, t: int, i: int) {
    forall k {:trigger Blocked(flds0, info0, t, k)} ::
      0 <= k < i && k < |flds0| && flds0[k].tblId == t && flds0[k].aux == Primary ==> !Blocked(flds0, info0, t, k)
  }

  lemma BlockedExactly(flds0: seq<Fld>, info0: seq<Info>, t: int, i: int, flds: seq<Fld>, info: seq<Info>)
    requires Turn(flds0, info0, t, i, flds, info) && 0 <= i < |flds| && flds[i].aux == Primary
    ensures Refused(flds, info, i) || (i == 0 && MeetsUnused(info)) <==> Blocked(flds0, info0, t, i)
  {
    if Dictionary(info, i) {
      var r :| r in Links(info) && r.dictId == i;
      assert r in Links(info0) && !EarlierOf(flds0, t, i, r);
    }
    if exists r :: r in Links(info0) && r.dictId == i && !EarlierOf(flds0, t, i, r) {
      var r :| r in Links(info0) && r.dictId == i && !EarlierOf(flds0, t, i, r);
      assert r in Links(info);
    }
  }

  /** A record that is not a primary field of the table is passed over. */
  lemma TurnPasses(flds0: seq<Fld>, info0: seq<Info>, t: int, i: int, flds: seq<Fld>, info: seq<Info>)
    requires Turn(flds0, info0, t, i, flds, info) && LinksOK(flds0, info0) && OnlyFrom(flds0, t, flds) && t >= 0
    requires 0 <= i < |flds| && !(flds[i].tblId == t && flds[i].aux == Primary)
    ensures Turn(flds0, info0, t, i + 1, flds, info)
  {
    SameLinksLeft(flds0, info0, t, i, i + 1, info);
  }

  lemma SameLinksLeft(flds0: seq<Fld>, info0: seq<Info>, t: int, i: int, next: int, info: seq<Info>)
    requires LinksLeft(flds0, info0, t, i, info) && LinksOK(flds0, info0) && next == i + 1 && 0 <= i < |flds0|
    requires !(flds0[i].tblId == t && flds0[i].aux == Primary)
    ensures LinksLeft(flds0, info0, t, next, info)
  {
    forall r | r in Links(info0) ensures EarlierOf(flds0, t, next, r) <==> EarlierOf(flds0, t, i, r) {
      NotEarlier(flds0, t, i, next, r);
    }
  }

  lemma NotEarlier(flds0: seq<Fld>, t: int, i: int, next: int, r: Info)
    requires Linkable(flds0, r.fldId) && next == i + 1 && 0 <= i < |flds0|
    requires !(flds0[i].tblId == t && flds0[i].aux == Primary)
    ensures EarlierOf(flds0, t, next, r) <==> EarlierOf(flds0, t, i, r)
  {}

  /** A primary field of the table that is not blocked is deleted. */
  lemma TurnDeletes(flds0: seq<Fld>, info0: seq<Info>, t: int, i: int, flds: seq<Fld>, info: seq<Info>,
                    flds1: seq<Fld>, info1: seq<Info>)
    requires Turn(flds0, info0, t, i, flds, info) && LinksOK(flds0, info0) && PairsOK(flds) && LinksOK(flds, info)
    requires 0 <= i < |flds| && flds[i].tblId == t && flds[i].aux == Primary && flds[i] == flds0[i]
    requires Deletes(flds, info, i, flds1, info1, 0) && !Blocked(flds0, info0, t, i)
    ensures Turn(flds0, info0, t, i + 1, flds1, info1)
  {
    var next := i + 1;
    LaterPrimaries(flds0, flds, i, next);
    LaterLinks(flds0, info0, t, i, next, info, info1);
    OneMoreUnblocked(flds0, info0, t, i, next);
  }

  lemma OneMoreUnblocked(flds0: seq<Fld>, info0: seq<Info>, t: int, i: int, next: int)
    requires NoneBlocked(flds0, info0, t, i) && !Blocked(flds0, info0, t, i) && next == i + 1
    ensures NoneBlocked(flds0, info0, t, next)
  {}

  lemma LaterPrimaries(flds0: seq<Fld>, flds: seq<Fld>, i: int, next: int)
    requires Untouched(flds0, i, flds) && PairsOK(flds) && 0 <= i < |flds| && next == i + 1
    ensures Untouched(flds0, next, Removed(flds, i))
  {
    assert DownOK(flds, i);
  }

  lemma LaterLinks(flds0: seq<Fld>, info0: seq<Info>, t: int, i: int, next: int, info: seq<Info>, info1: seq<Info>)
    requires LinksOK(flds0, info0) && Single(Links(info)) && 0 <= i < |flds0| && next == i + 1 && flds0[i].tblId == t
    requires LinksLeft(flds0, info0, t, i, info) && Links(info1) == Survivors(Links(info), i)
    ensures LinksLeft(flds0, info0, t, next, info1)
  {
    SurvivorsMembers(Links(info), i);
    forall r | r in Links(info0) ensures EarlierOf(flds0, t, next, r) <==> EarlierOf(flds0, t, i, r) || r.fldId == i {
      assert Linkable(flds0, r.fldId);
    }
  }

  lemma OneRound(flds0: seq<Fld>, info0: seq<Info>, flds1: seq<Fld>, info1: seq<Info>, t: int, i: int, flds: seq<Fld>,
                 info: seq<Info>, status: int)
    requires OnlyFrom(flds0, t, flds1) && OnlyLinksFrom(flds0, info0, t, info1) && t >= 0
    requires PairsOK(flds1) && LinksOK(flds1, info1) && 0 <= i < |flds1| && Live(flds1[i]) && flds1[i].tblId == t
    requires flds1[i].aux == Primary
    requires Deletes(flds1, info1, i, flds, info, status)
    ensures OnlyFrom(flds0, t, flds) && OnlyLinksFrom(flds0, info0, t, info) && OnlyFrom(flds1, t, flds)
    ensures Owned(flds1) <= Owned(flds0)
    ensures status == 0 || status == -1
    ensures status == 0 ==> flds[i] == ZERO_FLD
  {
    DeletesOnlyFrom(flds1, info1, i, flds, info, status);
    OnlyFromThen(flds0, flds1, flds, t);
    OnlyLinksThen(flds0, info0, flds1, info1, info, t);
    OnlyFromOwned(flds0, flds1, t);
  }

  // ----- a further link

  lemma LinkExactly(tbls: seq<Tbl>, flds: seq<Fld>, info: seq<Info>, files: Files, now: seq<Info>, f: int, d: int)
    requires Inv(tbls, flds, info, files) && Linkable(flds, d)
    requires Ordered(now) && multiset(Links(now)) == multiset(Links(info)) + multiset{Info(1, f, d)}
    ensures Inv(tbls, flds, now, files) <==> Linkable(flds, f) && forall r :: r in Links(info) ==> r.fldId != f
  {
    var x := Info(1, f, d);
    assert x in multiset(Links(now));
    if Linkable(flds, f) && forall r :: r in Links(info) ==> r.fldId != f {
      LinkKeeps(tbls, flds, info, files, now, f, d);
    }
    if LinksOK(flds, now) {
      assert x in Links(now) && Linkable(flds, x.fldId);
      forall r | r in Links(info) ensures r.fldId != f { SecondLink(Links(info), Links(now), x, r); }
    }
  }

  /** A second link of a field is one too many. */
  lemma SecondLink(links: seq<Info>, now: seq<Info>, x: Info, r: Info)
    requires multiset(now) == multiset(links) + multiset{x} && Single(now) && r in links
    ensures r.fldId != x.fldId
  {
    SingleOnce(now, x);
    assert r in multiset(links) && r in multiset(now) && x in multiset(now);
    assert r in now && x in now;
    assert r == x ==> multiset(now)[x] >= 2;
  }

  // ----- a field with two dictionaries

  const DICT_TBLS := [Tbl("t", 1)]
  const DICT_FLDS := [DictFld("f", 1, 4, I4, 0), DictFld("d", 2, 3, SC, 2), DictFld("e", 3, 3, SC, 2)]
  const DICT_FILES: Files := map[File(0, 1) := 4, File(0, 2) := 3, File(0, 3) := 3]
  const ONE_DICT := [Info(1, 0, 1), ZERO_INFO]
  const TWO_DICTS := [Info(1, 0, 1), Info(1, 0, 2)]

  function DictFld(name: string, no: int, size: nat, fldtype: FldType, len: int): Fld {
    Fld(name, 0, 0, no, size, -1, -1, Primary, fldtype, len)
  }

  /** Field 0 has dictionary 1; the link to dictionary 2 is accepted as well, and breaks the invariant. */
  lemma SecondDictionary()
    ensures Inv(DICT_TBLS, DICT_FLDS, ONE_DICT, DICT_FILES)
    ensures DICT_FLDS[2].fldtype == SC && Used(ONE_DICT) < |ONE_DICT|
    ensures !Inv(DICT_TBLS, DICT_FLDS, TWO_DICTS, DICT_FILES)
  {
    DictRecords();
    DictNames();
    DictLinks();
  }

  lemma DictRecords()
    ensures TablesOK(DICT_TBLS) && RecordsOK(DICT_TBLS, DICT_FLDS) && PairsOK(DICT_FLDS)
  {
    forall i | 0 <= i < |DICT_FLDS|
      ensures RecordOK(DICT_TBLS, DICT_FLDS[i]) && DownOK(DICT_FLDS, i) && UpOK(DICT_FLDS, i)
    {
      assert i == 0 || i == 1 || i == 2;
    }
  }

  lemma DictNames()
    ensures NamesOK(DICT_FLDS) && FilesOK(DICT_FLDS, DICT_FILES)
  {
    forall i, j | 0 <= i < j < |DICT_FLDS|
      ensures DICT_FLDS[i].name != DICT_FLDS[j].name && FileOf(DICT_FLDS[i]) != FileOf(DICT_FLDS[j])
    {
      assert (i == 0 && j == 1) || (i == 0 && j == 2) || (i == 1 && j == 2);
      assert DICT_FLDS[i].name[0] != DICT_FLDS[j].name[0];
    }
  }

  lemma DictLinks()
    ensures LinksOK(DICT_FLDS, ONE_DICT) && Used(ONE_DICT) == 1 && !Single(Links(TWO_DICTS))
  {
    UsedUnique(ONE_DICT, 1);
    UsedUnique(TWO_DICTS, 2);
    assert Links(ONE_DICT) == [Info(1, 0, 1)];
    assert Links(TWO_DICTS)[0].fldId == Links(TWO_DICTS)[1].fldId;
  }

  // ----- handing over a file that has an owner

  /** A record whose file another record owns, or owned until just now, breaks the invariant. */
  lemma SharedBreaks(flds0: seq<Fld>, files0: Files, flds1: seq<Fld>, files1: Files, now: seq<Fld>, d: int)
    requires Kept(flds0, files0, flds1, files1) && |now| == |flds1| && 0 <= d < |now| && Live(now[d]) && !Live(flds1[d])
    requires forall j :: 0 <= j < |now| && j != d ==> now[j].name == flds1[j].name && FileOf(now[j]) == FileOf(flds1[j])
    requires FileOf(now[d]) in Owned(flds0)
    ensures !FilesOK(now, files1)
  {
    if FileOf(now[d]) in Owned(flds1) {
      var j :| 0 <= j < |flds1| && Live(flds1[j]) && FileOf(flds1[j]) == FileOf(now[d]);
      assert Live(now[j]) && j != d;
    }
  }

  // ----- adding a table

  lemma ClearTable(tbls: seq<Tbl>, t: int)
    requires TablesOK(tbls) && 0 <= t < |tbls|
    ensures TablesOK(tbls[t := ZERO_TBL])
  {}

  lemma NewTable(tbls: seq<Tbl>, t: int, x: Tbl)
    requires TablesOK(tbls) && 0 <= t < |tbls| && GoodName(x.name) && x.nR > 0
    requires forall k :: 0 <= k < |tbls| && k != t ==> tbls[k].name != x.name
    ensures TablesOK(tbls[t := x])
  {}

  lemma DeadTableEmpty(tbls: seq<Tbl>, flds: seq<Fld>, t: int)
    requires RecordsOK(tbls, flds) && 0 <= t < |tbls| && tbls[t].name == ""
    ensures forall i :: 0 <= i < |flds| ==> flds[i].tblId != t
  {
    forall i | 0 <= i < |flds| ensures flds[i].tblId != t {
      assert flds[i] == ZERO_FLD || RecordOK(tbls, flds[i]);
    }
  }

  /** get_empty_tbl. */
  method GetEmptyTbl(tbls: seq<Tbl>, start: nat) returns (id: int)
    requires start < |tbls|
    ensures id == -1 ==> forall t :: 0 <= t < |tbls| ==> tbls[t].name != ""
    ensures id != -1 ==> 0 <= id < |tbls| && tbls[id].name == ""
  {
    id := FindTbl(tbls, "", start);
  }

  class Store {
    var tbls: seq<Tbl>
    var flds: seq<Fld>
    var info: seq<Info>
    var files: Files
    const nDdir: nat
    const hash: string -> nat // hash_string_UI4
    const hint: string -> nat // where is_fld and is_tbl begin

    ghost predicate Valid()
      reads this
    {
      Inv(tbls, flds, info, files)
    }

    /** A store without tables, fields or links, beside any files. */
    constructor (nTbl: nat, nFld: nat, nInfo: nat, nDdir: nat, files: Files, hash: string -> nat, hint: string -> nat)
      requires nTbl > 0 && 0 < nFld <= MAX_ID + 1
      ensures Valid() && Owned(flds) == {} && Links(info) == [] && this.files == files
    {
      this.tbls := seq(nTbl, _ => ZERO_TBL);
      this.flds := seq(nFld, _ => ZERO_FLD);
      this.info := seq(nInfo, _ => ZERO_INFO);
      this.files := files;
      this.nDdir := nDdir;
      this.hash := hash;
      this.hint := hint;
    }

    /** del_fld on a known record (del_fld.c:51-133). */
    method DelRecord(i: int) returns (status: int)
      requires Valid() && 0 <= i < |flds| && Live(flds[i])
      modifies this
      ensures Valid() && tbls == old(tbls)
      ensures Deletes(old(flds), old(info), i, flds, info, status)
      ensures Kept(old(flds), old(files), flds, files)
    {
      var used := IsDictionary(info, i);
      if used { return -1; }
      if flds[i].aux != Primary { return -1; }
      ghost var info0, flds0, files0 := info, flds, files;
      ClearRecords(i);
      info, status := DeleteLinks(info, i);
      RemoveKeeps(tbls, flds0, info0, files0, i, info);
      RemoveKept(flds0, files0, i);
    }

    /** Unlink and clear a field and its companion. */
    method ClearRecords(i: int)
      requires 0 <= i < |flds| && DownOK(flds, i)
      modifies this`flds, this`files
      ensures flds == Removed(old(flds), i) && files == old(files) - RemovedFiles(old(flds), i)
    {
      var c := flds[i].nnFldId;
      files := files - {FileOf(flds[i])};
      if c < 0 {
        flds := flds[i := ZERO_FLD];
      } else {
        TwoFiles(old(files), FileOf(flds[i]), FileOf(flds[c]));
        files := files - {FileOf(flds[c])};
        flds := flds[i := ZERO_FLD];
        flds := flds[c := ZERO_FLD];
      }
    }

    /** del_fld by table position and field name. */
    method DelNamed(t: int, name: string) returns (status: int)
      requires Valid() && name != ""
      modifies this
      ensures Valid() && tbls == old(tbls) && Kept(old(flds), old(files), flds, files)
      ensures var e := Where(old(flds), t, name);
              if e < 0 then status == 0 && flds == old(flds) && info == old(info)
              else Deletes(old(flds), old(info), e, flds, info, status)
    {
      var e := FindFld(flds, t, name, hint(name) % |flds|);
      if e < 0 {
        WhereNone(flds, t, name);
        KeptSame(flds, files);
        return 0;
      }
      WhereUnique(tbls, flds, t, name, e);
      status := DelRecord(e);
    }

    /** The common part of add_fld and break_nn_fld: delete the old field, find an unused record. */
    method MakeRoom(t: int, name: string) returns (slot: int)
      requires Valid() && name != ""
      modifies this
      ensures Valid() && tbls == old(tbls) && Kept(old(flds), old(files), flds, files)
      ensures flds == Room(old(flds), old(info), t, name) && Links(info) == RoomLinks(old(flds), old(info), t, name)
      ensures slot == -1 <==> NoRoom(old(flds), old(info), t, name)
      ensures slot != -1 ==> 0 <= slot < |flds| && flds[slot] == ZERO_FLD && Where(flds, t, name) == -1
    {
      ghost var flds0, info0 := flds, info;
      var status := DelNamed(t, name);
      RoomOutcome(tbls, flds0, info0, t, name, flds, info, status);
      if status < 0 { return -1; }
      slot := GetEmptyFld(flds, hash(name) % |flds|);
    }

    /** The checks of add_fld that come before any change. */
    method Accept(f: Fld) returns (ok: bool)
      requires Valid()
      ensures ok <==> Acceptable(tbls, files, nDdir, f)
    {
      var named := ChkName(f.name);
      if f.fldtype == Undef || !named { return false; }
      if f.fileno <= 0 || f.ddirId < 0 || f.ddirId >= nDdir || f.tblId < 0 || f.tblId >= |tbls| { return false; }
      if tbls[f.tblId].nR <= 0 || FileOf(f) !in files { return false; }
      ok := ChkFileSize(tbls[f.tblId].nR, f.fldtype, f.len, files[FileOf(f)]);
    }

    /**
     add_fld.  What it does to the records does not depend on who owns the
     handed file; the invariant survives a successful call exactly when no
     live record owns it.
     */
    method AddFld(t: int, name: string, fldtype: FldType, len: int, ddir: int, no: int) returns (id: int)
      requires Valid()
      modifies this
      ensures tbls == old(tbls)
      ensures id == -1 || File(ddir, no) !in Owned(old(flds)) ==> Valid() && Kept(old(flds), old(files), flds, files)
      ensures id != -1 && File(ddir, no) in Owned(old(flds)) ==> !Valid()
      ensures var f := Fld(name, t, ddir, no, 0, -1, -1, Primary, fldtype, len);
              && (id == -1 <==> !Acceptable(tbls, old(files), nDdir, f) || NoRoom(old(flds), old(info), t, name))
              && (!Acceptable(tbls, old(files), nDdir, f) ==>
                  flds == old(flds) && info == old(info) && files == old(files))
              && (Acceptable(tbls, old(files), nDdir, f) ==>
                    var room := Room(old(flds), old(info), t, name);
                    && Links(info) == RoomLinks(old(flds), old(info), t, name) &&
                        Kept(old(flds), old(files), room, files)
                    && (id == -1 ==> flds == room)
                    && (id != -1 ==>
                          && 0 <= id < |room| && room[id] == ZERO_FLD
                          && flds == room[id := f.(filesz := old(files)[FileOf(f)])]))
    {
      var f := Fld(name, t, ddir, no, 0, -1, -1, Primary, fldtype, len);
      var ok := Accept(f);
      if !ok {
        KeptSame(flds, files);
        return -1;
      }
      ghost var flds0, info0, files0 := flds, info, files;
      f := f.(filesz := files[FileOf(f)]);
      id := MakeRoom(t, name);
      if id == -1 { return; }
      RoomOwned(tbls, flds0, info0, files0, t, name);
      WriteNew(flds0, files0, id, f);
    }

    /** The new record, in a store with room for it. */
    method WriteNew(ghost flds0: seq<Fld>, ghost files0: Files, id: int, f: Fld)
      requires Valid() && 0 <= id < |flds| && flds[id] == ZERO_FLD && Where(flds, f.tblId, f.name) == -1
      requires Acceptable(tbls, files0, nDdir, f) && f.aux == Primary && f.nnFldId == -1 && f.parentId == -1
      requires f.filesz == files0[FileOf(f)]
      requires Kept(flds0, files0, flds, files) && Owned(flds) <= Owned(flds0)
      modifies this`flds
      ensures flds == old(flds)[id := f]
      ensures FileOf(f) !in Owned(flds0) ==> Valid() && Kept(flds0, files0, flds, files)
      ensures FileOf(f) in Owned(flds0) ==> !Valid()
    {
      ghost var flds1 := flds;
      if FileOf(f) !in Owned(flds0) {
        StillThere(flds0, files0, flds, files, FileOf(f));
        InsertableRecord(tbls, flds, info, files0, files, nDdir, id, f);
        InsertKeeps(tbls, flds, info, files, id, f);
      } else {
        SharedBreaks(flds0, files0, flds1, files, flds1[id := f], id);
      }
      flds := flds[id := f];
      if FileOf(f) !in Owned(flds0) { KeptThen(flds0, files0, flds1, files, flds, files); }
    }

    /** del_aux_fld for the nn companion. */
    method DropCompanion(p: int)
      requires Valid() && 0 <= p < |flds| && Live(flds[p])
      modifies this`flds, this`files
      ensures Valid() && flds == Bare(old(flds), p) && Kept(old(flds), old(files), flds, files)
      ensures Owned(flds) <= Owned(old(flds)) && |flds| == |old(flds)| && Live(flds[p]) && flds[p].nnFldId == -1
    {
      var c := flds[p].nnFldId;
      assert DownOK(flds, p) && RecordOK(tbls, flds[p]);
      if c < 0 {
        KeptSame(flds, files);
        return;
      }
      PairFacts(flds, p, c);
      DropKeeps(tbls, flds, info, files, p, c);
      BareKept(flds, files, c, Drop(flds, p, c));
      files := files - {FileOf(flds[c])};
      flds := flds[c := ZERO_FLD][p := flds[p].(nnFldId := -1)];
    }

    /** is_tbl on the table records. */
    method Table(tbl: string) returns (t: int)
      requires Valid() && tbl != ""
      ensures t == TableAt(tbls, tbl)
    {
      t := FindTbl(tbls, tbl, hint(tbl) % |tbls|);
    }

    /** The lookups that the operations by name begin with. */
    method Find(tbl: string, fld: string) returns (t: int, p: int)
      requires Valid() && tbl != "" && fld != ""
      ensures t == TableAt(tbls, tbl) && p == FieldAt(tbls, flds, tbl, fld)
    {
      t := Table(tbl);
      if t == -1 { return t, -1; }
      p := FindFld(flds, t, fld, hint(fld) % |flds|);
      if p == -1 { WhereNone(flds, t, fld); } else { WhereUnique(tbls, flds, t, fld, p); }
    }

    /** drop_aux_fld for the nn companion. */
    method DropAux(tbl: string, fld: string) returns (status: int)
      requires Valid()
      modifies this`flds, this`files
      ensures Valid() && Kept(old(flds), old(files), flds, files)
      ensures status == if tbl == "" || fld == "" || TableAt(tbls, tbl) == -1 then -1 else 0
      ensures var p := FieldAt(tbls, old(flds), tbl, fld); flds == if p == -1 then old(flds) else Bare(old(flds), p)
    {
      KeptSame(flds, files);
      if tbl == "" || fld == "" { return -1; }
      var t, p := Find(tbl, fld);
      if t == -1 { return -1; }
      if p != -1 { DropCompanion(p); }
      status := 0;
    }

    /**
     add_aux_fld for an nn companion.  As in add_fld, the invariant survives a
     successful call exactly when no live record owns the handed file.
     */
    method AddAuxNn(tbl: string, fld: string, fldtype: FldType, ddir: int, no: int) returns (id: int)
      requires Valid()
      modifies this`flds, this`files
      ensures id == -1 || File(ddir, no) !in Owned(old(flds)) ==> Valid() && Kept(old(flds), old(files), flds, files)
      ensures id != -1 && File(ddir, no) in Owned(old(flds)) ==> !Valid()
      ensures var p := FieldAt(tbls, old(flds), tbl, fld);
              if p == -1 || fldtype !in {I1, B} || no < 0 then id == -1 && flds == old(flds) && files == old(files)
              else
                && Kept(old(flds), old(files), Bare(old(flds), p), files)
                && Companion(files, nDdir, Bare(old(flds), p), p, fldtype, File(ddir, no), flds, id)
    {
      KeptSame(flds, files);
      if fldtype != I1 && fldtype != B { return -1; }
      if tbl == "" || fld == "" || no < 0 { return -1; }
      var t, p := Find(tbl, fld);
      if p == -1 { return -1; }
      ghost var flds0, files0 := flds, files;
      DropCompanion(p);
      ghost var flds1, files1 := flds, files;
      id := AddCompanion(p, fldtype, ddir, no);
      AttachedFile(flds0, files0, flds1, files1, File(ddir, no), id, nDdir, p, fldtype, flds);
      if id == -1 || File(ddir, no) !in Owned(flds1) { KeptThen(flds0, files0, flds1, files1, flds, files); }
    }

    /** The part of add_aux_fld that follows the removal of the old companion. */
    method AddCompanion(p: int, fldtype: FldType, ddir: int, no: int) returns (id: int)
      requires Valid() && 0 <= p < |flds| && Live(flds[p]) && flds[p].nnFldId == -1
      requires fldtype in {I1, B} && no >= 0
      modifies this`flds
      ensures id == -1 || File(ddir, no) !in Owned(old(flds)) ==> Valid() && Kept(old(flds), files, flds, files)
      ensures id != -1 && File(ddir, no) in Owned(old(flds)) ==> !Valid()
      ensures Companion(files, nDdir, old(flds), p, fldtype, File(ddir, no), flds, id)
    {
      KeptSame(flds, files);
      var x := File(ddir, no);
      if ddir < 0 || ddir >= nDdir || x !in files || files[x] == 0 { return -1; }
      var named := ChkName(flds[p].name);
      if !named || |flds[p].name| + 4 > 31 { return -1; }
      var name := NN_PREFIX + flds[p].name;
      id := GetEmptyFld(flds, hash(name) % |flds|);
      if id == -1 { return; }
      GoodNamePrimary(tbls, flds, p);
      WriteCompanion(p, id, Fld(name, flds[p].tblId, ddir, no, files[x], p, -1, NN, fldtype, 0));
    }

    method WriteCompanion(p: int, c: int, f: Fld)
      requires Valid() && Attachable(tbls, flds, p, c, f)
      requires FileOf(f) in files && files[FileOf(f)] == f.filesz
      modifies this`flds
      ensures flds == Attach(old(flds), p, c, f)
      ensures FileOf(f) !in Owned(old(flds)) ==> Valid() && Kept(old(flds), files, flds, files)
      ensures FileOf(f) in Owned(old(flds)) ==> !Valid()
    {
      if FileOf(f) !in Owned(flds) {
        AttachKeeps(tbls, flds, info, files, p, c, f);
      } else {
        KeptSame(flds, files);
        SharedBreaks(flds, files, flds, files, Attach(flds, p, c, f), c);
      }
      flds := flds[p := flds[p].(nnFldId := c)][c := f];
    }

    /** break_nn_fld: the companion of one field becomes a primary field of its own. */
    method BreakNn(srcTbl: string, srcFld: string, dstTbl: string, dstFld: string) returns (id: int)
      requires Valid()
      modifies this
      ensures Valid() && tbls == old(tbls) && Kept(old(flds), old(files), flds, files)
      ensures var p := FieldAt(tbls, old(flds), srcTbl, srcFld);
              var d := TableAt(tbls, dstTbl);
              if !Breakable(tbls, old(flds), old(files), nDdir, p, d, TableAt(tbls, srcTbl), dstTbl, dstFld) ||
                  srcFld == dstFld
              then id == -1 && flds == old(flds) && info == old(info)
              else Broken(old(flds), old(info), p, d, dstFld, flds, info, id)
    {
      KeptSame(flds, files);
      if srcTbl == "" || srcFld == "" || dstTbl == "" || dstFld == "" || srcFld == dstFld { return -1; }
      var s, p := Find(srcTbl, srcFld);
      if p == -1 { return -1; }
      var c := flds[p].nnFldId;
      if c < 0 { return -1; }
      assert DownOK(flds, p);
      var d := Table(dstTbl);
      if d == -1 { return -1; }
      if tbls[s].nR != tbls[d].nR { return -1; }
      var f := Fld(dstFld, d, flds[c].ddirId, flds[c].fileno, flds[c].filesz, -1, -1, Primary, flds[c].fldtype, 0);
      var ok := Accept(f);
      if !ok { return -1; }
      id := MoveCompanion(p, c, d, f);
    }

    /** The part of break_nn_fld that changes records. */
    method MoveCompanion(p: int, c: int, d: int, f: Fld) returns (id: int)
      requires Valid() && Paired(flds, p, c) && f == NewPrimary(flds[c], d, f.name) && Acceptable(tbls, files, nDdir, f)
      requires flds[p].name != f.name
      modifies this
      ensures Valid() && tbls == old(tbls) && Kept(old(flds), old(files), flds, files)
      ensures Broken(old(flds), old(info), p, d, f.name, flds, info, id)
    {
      ghost var flds0, info0, files0 := flds, info, files;
      PairFacts(flds, p, c);
      id := MakeRoom(d, f.name);
      RoomSpares(tbls, flds0, info0, d, f.name, p, c);
      if id == -1 { return; }
      RoomOwned(tbls, flds0, info0, files0, d, f.name);
      WriteMoved(flds0, files0, p, c, id, f);
    }

    method WriteMoved(ghost flds0: seq<Fld>, ghost files0: Files, p: int, c: int, id: int, f: Fld)
      requires Valid() && Paired(flds, p, c) && 0 <= id < |flds| && flds[id] == ZERO_FLD
      requires Where(flds, f.tblId, f.name) == -1
      requires Acceptable(tbls, files0, nDdir, f) && f == NewPrimary(flds[c], f.tblId, f.name)
      requires f.filesz == files0[FileOf(f)]
      requires Kept(flds0, files0, flds, files) && Owned(flds) <= Owned(flds0)
      modifies this`flds
      ensures Valid() && flds == Drop(old(flds), p, c)[id := f] && Kept(flds0, files0, flds, files)
    {
      ghost var flds1 := flds;
      HandOver(tbls, flds, info, files0, files, nDdir, p, c, id, f);
      PairFacts(flds, p, c);
      MoveOrder(flds, p, c, id, f);
      flds := flds[id := f];
      flds := flds[c := ZERO_FLD];
      flds := flds[p := flds[p].(nnFldId := -1)];
      KeptMoved(flds0, files0, flds1, flds, files);
    }

    /**
     set_meta of attribute dict_fld.  The invariant survives a successful call
     exactly when the field is a live primary one and has no dictionary yet.
     */
    method AddDict(f: int, d: int) returns (status: int)
      requires Valid()
      modifies this`info
      ensures status == if 0 <= f < |flds| && 0 <= d < |flds| && flds[d].fldtype in {SC, SV} &&
          Used(old(info)) < |old(info)| then 0 else -1
      ensures status == -1 ==> info == old(info)
      ensures status == 0 ==> multiset(Links(info)) == multiset(Links(old(info))) + multiset{Info(1, f, d)}
      ensures status == 0 ==> (Valid() <==> Linkable(flds, f) && forall r :: r in Links(old(info)) ==> r.fldId != f)
    {
      if d < 0 || d >= |flds| { return -1; }
      if flds[d].fldtype != SC && flds[d].fldtype != SV { return -1; }
      if f < 0 || f >= |flds| { return -1; }
      ghost var info0 := info;
      assert flds[d] == ZERO_FLD || RecordOK(tbls, flds[d]);
      info, status := AddLink(info, f, d);
      if status == 0 { LinkExactly(tbls, flds, info0, files, info, f, d); }
    }

    /** del_fld by names. */
    method DelFld(tbl: string, fld: string) returns (status: int)
      requires Valid()
      modifies this
      ensures Valid() && tbls == old(tbls) && Kept(old(flds), old(files), flds, files)
      ensures var e := FieldAt(tbls, old(flds), tbl, fld);
              if e == -1 then flds == old(flds) && info == old(info) &&
                  status == if tbl == "" || (TableAt(tbls, tbl) != -1 && fld == "") then -1 else 0
              else Deletes(old(flds), old(info), e, flds, info, status)
    {
      KeptSame(flds, files);
      if tbl == "" { return -1; }
      var t := Table(tbl);
      if t < 0 { return 0; }
      if fld == "" { return -1; }
      status := DelNamed(t, fld);
    }

    /** del_tbl by position: the first field that cannot be deleted stops it. */
    method DelTblAt(t: int) returns (status: int)
      requires Valid() && 0 <= t < |tbls|
      modifies this
      ensures Valid() && Kept(old(flds), old(files), flds, files)
      ensures OnlyFrom(old(flds), t, flds) && OnlyLinksFrom(old(flds), old(info), t, info)
      ensures status == 0 ==> tbls == old(tbls)[t := ZERO_TBL] && forall j :: 0 <= j < |flds| ==> flds[j].tblId != t
      ensures status != 0 ==> tbls == old(tbls)
      ensures status == if Deletable(old(flds), old(info), t) then 0 else -1
    {
      status := DelFields(t);
      if status < 0 { return -1; }
      ClearTable(tbls, t);
      TableKeeps(tbls, flds, info, files, t, ZERO_TBL);
      tbls := tbls[t := ZERO_TBL];
    }

    /** The loop of del_tbl over the primary fields. */
    method DelFields(t: int) returns (status: int)
      requires Valid() && 0 <= t < |tbls|
      modifies this
      ensures Valid() && tbls == old(tbls) && Deleting(old(flds), old(info), old(files), t, flds, info, files)
      ensures status == if Deletable(old(flds), old(info), t) then 0 else -1
      ensures status == 0 ==> forall j :: 0 <= j < |flds| ==> flds[j].tblId != t
    {
      KeptSame(flds, files);
      status := 0;
      var i, n := 0, |flds|;
      while i < n
        invariant Valid() && tbls == old(tbls) && |flds| == n && 0 <= i <= n && status == 0
        invariant Deleting(old(flds), old(info), old(files), t, flds, info, files)
        invariant PrimariesGone(flds, t, i) && Turn(old(flds), old(info), t, i, flds, info)
      {
        var next := i + 1;
        status := VisitField(old(flds), old(info), old(files), t, i, next);
        if status < 0 { return; }
        i := next;
      }
      NoneLeft(flds, t);
    }

    /** Record `i` in that loop. */
    method VisitField(ghost flds0: seq<Fld>, ghost info0: seq<Info>, ghost files0: Files, t: int, i: int,
                      next: int) returns (status: int)
      requires Valid() && Deleting(flds0, info0, files0, t, flds, info, files) && LinksOK(flds0, info0)
      requires 0 <= t && 0 <= i < |flds| && next == i + 1 && PrimariesGone(flds, t, i)
      requires Turn(flds0, info0, t, i, flds, info)
      modifies this
      ensures Valid() && tbls == old(tbls) && Deleting(flds0, info0, files0, t, flds, info, files)
      ensures |flds| == |old(flds)|
      ensures status == 0 ==> PrimariesGone(flds, t, next) && Turn(flds0, info0, t, next, flds, info)
      ensures status != 0 ==> status == -1 && !Deletable(flds0, info0, t)
    {
      status := 0;
      ghost var flds1, info1 := flds, info;
      if flds[i].tblId == t && flds[i].aux == Primary {
        BlockedExactly(flds0, info0, t, i, flds, info);
        status := DelOne(flds0, info0, files0, t, i);
        if status < 0 { return; }
        TurnDeletes(flds0, info0, t, i, flds1, info1, flds, info);
      } else {
        TurnPasses(flds0, info0, t, i, flds, info);
      }
      GoneStep(flds1, flds, t, i);
    }

    /** Deleting one field in that loop, seen from the start of the loop. */
    method DelOne(ghost flds0: seq<Fld>, ghost info0: seq<Info>, ghost files0: Files, t: int,
                  i: int) returns (status: int)
      requires Valid() && Deleting(flds0, info0, files0, t, flds, info, files)
      requires 0 <= t && 0 <= i < |flds| && flds[i].tblId == t && flds[i].aux == Primary
      modifies this
      ensures Valid() && tbls == old(tbls) && Deleting(flds0, info0, files0, t, flds, info, files)
      ensures OnlyFrom(old(flds), t, flds)
      ensures Deletes(old(flds), old(info), i, flds, info, status)
      ensures status == 0 || status == -1
      ensures status == 0 ==> flds[i] == ZERO_FLD
    {
      ghost var flds1, info1, files1 := flds, info, files;
      assert RecordOK(tbls, flds[i]);
      status := DelRecord(i);
      OneRound(flds0, info0, flds1, info1, t, i, flds, info, status);
      KeptThen(flds0, files0, flds1, files1, flds, files);
    }

    /** del_tbl by name; a missing table is not an error. */
    method DelTbl(tbl: string) returns (status: int)
      requires Valid()
      modifies this
      ensures Valid() && Kept(old(flds), old(files), flds, files)
      ensures var t := TableAt(old(tbls), tbl);
              if tbl == "" || t == -1 then tbls == old(tbls) && flds == old(flds) && info == old(info) &&
                  status == if tbl == "" then -1 else 0
              else
                && OnlyFrom(old(flds), t, flds) && OnlyLinksFrom(old(flds), old(info), t, info)
                && status == if Deletable(old(flds), old(info), t) then 0 else -1
      ensures var t := TableAt(old(tbls), tbl);
              tbl != "" && t != -1 ==>
                if status != 0 then tbls == old(tbls)
                else tbls == old(tbls)[t := ZERO_TBL] && forall j :: 0 <= j < |flds| ==> flds[j].tblId != t
    {
      KeptSame(flds, files);
      if tbl == "" { return -1; }
      var t := Table(tbl);
      if t == -1 { return 0; }
      status := DelTblAt(t);
    }

    /** add_tbl: an old table of that name goes first, with all its fields. */
    method AddTbl(tbl: string, nR: int) returns (id: int)
      requires Valid()
      modifies this
      ensures Valid() && Kept(old(flds), old(files), flds, files)
      ensures !GoodName(tbl) || nR <= 0 ==> id == -1 && flds == old(flds) && tbls == old(tbls) && info == old(info)
      ensures var t := TableAt(old(tbls), tbl);
              if t == -1 then flds == old(flds) && info == old(info)
              else OnlyFrom(old(flds), t, flds) && OnlyLinksFrom(old(flds), old(info), t, info) && (id == -1 || id == t)
      ensures var t := TableAt(old(tbls), tbl);
              id == -1 <==>
                || !GoodName(tbl) || nR <= 0
                || (if t == -1 then forall k :: 0 <= k < |old(tbls)| ==> old(tbls)[k].name != ""
                    else !Deletable(old(flds), old(info), t))
      ensures id == -1 ==> tbls == old(tbls)
      ensures id != -1 ==>
          0 <= id < |old(tbls)| && tbls == old(tbls)[id := Tbl(tbl, nR)] && old(tbls)[id].name in {"", tbl}
      ensures id != -1 ==> forall i :: 0 <= i < |flds| ==> flds[i].tblId != id
    {
      KeptSame(flds, files);
      var named := ChkName(tbl);
      if nR <= 0 || !named { return -1; }
      id := Table(tbl);
      ghost var tbls0 := tbls;
      if id >= 0 {
        var status := DelTblAt(id);
        if status < 0 { return -1; }
      } else {
        id := GetEmptyTbl(tbls, hash(tbl) % |tbls|);
        if id == -1 { return; }
        DeadTableEmpty(tbls, flds, id);
      }
      WriteTable(id, Tbl(tbl, nR));
    }

    method WriteTable(t: int, x: Tbl)
      requires Valid() && 0 <= t < |tbls| && GoodName(x.name) && x.nR > 0
      requires forall k :: 0 <= k < |tbls| && k != t ==> tbls[k].name != x.name
      requires forall i :: 0 <= i < |flds| ==> flds[i].tblId != t
      modifies this`tbls
      ensures Valid() && tbls == old(tbls)[t := x]
    {
      NewTable(tbls, t, x);
      TableKeeps(tbls, flds, info, files, t, x);
      tbls := tbls[t := x];
    }
  }
}
