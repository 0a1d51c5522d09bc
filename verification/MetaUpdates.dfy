/**
 The record updates that the operations are made of, and what each keeps of
 the invariant.
 */
module MetaUpdates {
  import opened MetaLinks
  import opened MetaRecords

  type Files = map<File, nat>

  // ----- dropping the companion `c` of field `p`

  function Drop(flds: seq<Fld>, p: int, c: int): seq<Fld>
    requires 0 <= p < |flds| && 0 <= c < |flds|
  {
    flds[c := ZERO_FLD][p := flds[p].(nnFldId := -1)]
  }

  ghost predicate Paired(flds: seq<Fld>, p: int, c: int) {
    0 <= p < |flds| && 0 <= c < |flds| && Live(flds[p]) && flds[p].nnFldId == c
  }

  lemma PairFacts(flds: seq<Fld>, p: int, c: int)
    requires PairsOK(flds) && Paired(flds, p, c)
    ensures p != c && flds[p].aux == Primary && flds[c].aux == NN && flds[c].parentId == p
    ensures flds[c].tblId == flds[p].tblId
    ensures flds[c].name == NN_PREFIX + flds[p].name && Live(flds[c])
  {
    assert DownOK(flds, p) && UpOK(flds, c);
  }

  lemma DropRecords(tbls: seq<Tbl>, flds: seq<Fld>, p: int, c: int)
    requires RecordsOK(tbls, flds) && PairsOK(flds) && Paired(flds, p, c)
    ensures RecordsOK(tbls, Drop(flds, p, c))
  {
    PairFacts(flds, p, c);
  }

  lemma DropPairs(flds: seq<Fld>, p: int, c: int)
    requires PairsOK(flds) && Paired(flds, p, c)
    ensures PairsOK(Drop(flds, p, c))
  {
    PairFacts(flds, p, c);
    var now := Drop(flds, p, c);
    forall j | 0 <= j < |now| ensures DownOK(now, j) && UpOK(now, j) {
      assert DownOK(flds, j) && UpOK(flds, j);
    }
  }

  lemma DropNames(flds: seq<Fld>, p: int, c: int)
    requires PairsOK(flds) && NamesOK(flds) && Paired(flds, p, c)
    ensures NamesOK(Drop(flds, p, c))
  {
    PairFacts(flds, p, c);
    var now := Drop(flds, p, c);
    forall j | 0 <= j < |now| ensures j != c ==>
        now[j].name == flds[j].name && now[j].tblId == flds[j].tblId && now[j].aux == flds[j].aux {}
  }

  /** Whether or not the companion's file is unlinked with it. */
  lemma DropFiles(flds: seq<Fld>, p: int, c: int, files: Files)
    requires PairsOK(flds) && FilesOK(flds, files) && Paired(flds, p, c)
    ensures FilesOK(Drop(flds, p, c), files)
    ensures FilesOK(Drop(flds, p, c), files - {FileOf(flds[c])})
  {
    PairFacts(flds, p, c);
    var now := Drop(flds, p, c);
    forall j | 0 <= j < |now| && Live(now[j])
      ensures j != c && Live(flds[j]) && FileOf(now[j]) == FileOf(flds[j]) && now[j].filesz == flds[j].filesz
      ensures FileOf(flds[j]) != FileOf(flds[c])
    {}
  }

  lemma DropOwned(flds: seq<Fld>, p: int, c: int, files: Files)
    requires PairsOK(flds) && FilesOK(flds, files) && Paired(flds, p, c)
    ensures Owned(Drop(flds, p, c)) == Owned(flds) - {FileOf(flds[c])}
  {
    PairFacts(flds, p, c);
    var now := Drop(flds, p, c);
    forall j | 0 <= j < |now|
      ensures Live(now[j]) <==> Live(flds[j]) && j != c
      ensures Live(now[j]) ==> FileOf(now[j]) == FileOf(flds[j]) && FileOf(flds[j]) != FileOf(flds[c])
    {}
    forall f | f in Owned(flds) - {FileOf(flds[c])} ensures f in Owned(now) {
      var j :| 0 <= j < |flds| && Live(flds[j]) && FileOf(flds[j]) == f;
      assert Live(now[j]) && FileOf(now[j]) == f;
    }
  }

  lemma DropLinks(flds: seq<Fld>, p: int, c: int, info: seq<Info>)
    requires PairsOK(flds) && LinksOK(flds, info) && Paired(flds, p, c)
    ensures LinksOK(Drop(flds, p, c), info)
  {
    PairFacts(flds, p, c);
    var now := Drop(flds, p, c);
    forall i ensures Linkable(flds, i) ==> Linkable(now, i) {}
  }

  // ----- clearing the primary field `i`, which has no companion

  ghost predicate Alone(flds: seq<Fld>, i: int) {
    0 <= i < |flds| && Live(flds[i]) && flds[i].aux == Primary && flds[i].nnFldId == -1
  }

  lemma ClearRecord(tbls: seq<Tbl>, flds: seq<Fld>, i: int)
    requires RecordsOK(tbls, flds) && PairsOK(flds) && NamesOK(flds) && Alone(flds, i)
    ensures RecordsOK(tbls, flds[i := ZERO_FLD]) && PairsOK(flds[i := ZERO_FLD]) && NamesOK(flds[i := ZERO_FLD])
  {
    var now := flds[i := ZERO_FLD];
    forall j | 0 <= j < |now| ensures DownOK(now, j) && UpOK(now, j) {
      assert DownOK(flds, j) && UpOK(flds, j);
    }
  }

  lemma ClearFiles(flds: seq<Fld>, i: int, files: Files)
    requires FilesOK(flds, files) && Alone(flds, i)
    ensures FilesOK(flds[i := ZERO_FLD], files - {FileOf(flds[i])})
    ensures Owned(flds[i := ZERO_FLD]) == Owned(flds) - {FileOf(flds[i])}
  {
    var now := flds[i := ZERO_FLD];
    forall f | f in Owned(flds) - {FileOf(flds[i])} ensures f in Owned(now) {
      var j :| 0 <= j < |flds| && Live(flds[j]) && FileOf(flds[j]) == f;
      assert Live(now[j]) && FileOf(now[j]) == f;
    }
  }

  /** The links of the field go with it; nobody uses it as a dictionary. */
  lemma ClearLinks(flds: seq<Fld>, i: int, info: seq<Info>, now: seq<Info>)
    requires LinksOK(flds, info) && Alone(flds, i)
    requires forall r :: r in Links(info) ==> r.dictId != i
    requires Ordered(now) && Links(now) == Survivors(Links(info), i)
    ensures LinksOK(flds[i := ZERO_FLD], now)
    ensures forall r :: r in Links(now) <==> r in Links(info) && r.fldId != i
  {
    SurvivorsMembers(Links(info), i);
    SurvivorsSingle(Links(info), i);
  }

  // ----- writing a primary field into the unused record `d`

  ghost predicate Insertable(tbls: seq<Tbl>, flds: seq<Fld>, files: Files, d: int, f: Fld) {
    && 0 <= d < |flds| && flds[d] == ZERO_FLD
    && RecordOK(tbls, f) && f.aux == Primary && f.nnFldId == -1
    && (forall j :: 0 <= j < |flds| && flds[j].tblId == f.tblId ==> flds[j].name != f.name)
    && FileOf(f) in files && files[FileOf(f)] == f.filesz && FileOf(f) !in Owned(flds)
  }

  lemma InsertRecord(tbls: seq<Tbl>, flds: seq<Fld>, files: Files, d: int, f: Fld)
    requires RecordsOK(tbls, flds) && PairsOK(flds) && NamesOK(flds) && Insertable(tbls, flds, files, d, f)
    ensures RecordsOK(tbls, flds[d := f]) && PairsOK(flds[d := f]) && NamesOK(flds[d := f])
  {
    var now := flds[d := f];
    forall j | 0 <= j < |now| ensures DownOK(now, j) && UpOK(now, j) {
      assert DownOK(flds, j) && UpOK(flds, j);
    }
  }

  lemma InsertFiles(tbls: seq<Tbl>, flds: seq<Fld>, files: Files, d: int, f: Fld)
    requires FilesOK(flds, files) && Insertable(tbls, flds, files, d, f)
    ensures FilesOK(flds[d := f], files) && Owned(flds[d := f]) == Owned(flds) + {FileOf(f)}
  {
    NewFile(flds, d, f, files);
  }

  lemma NewFile(flds: seq<Fld>, d: int, f: Fld, files: Files)
    requires 0 <= d < |flds| && !Live(flds[d]) && Live(f) && FilesOK(flds, files)
    requires FileOf(f) in files && files[FileOf(f)] == f.filesz && FileOf(f) !in Owned(flds)
    ensures FilesOK(flds[d := f], files) && Owned(flds[d := f]) == Owned(flds) + {FileOf(f)}
  {
    var now := flds[d := f];
    forall j | 0 <= j < |flds| && Live(flds[j]) ensures FileOf(flds[j]) != FileOf(f) && j != d {
      assert FileOf(flds[j]) in Owned(flds);
    }
    assert Live(now[d]) && FileOf(now[d]) == FileOf(f);
    forall g | g in Owned(flds) ensures g in Owned(now) {
      var j :| 0 <= j < |flds| && Live(flds[j]) && FileOf(flds[j]) == g;
      assert Live(now[j]) && FileOf(now[j]) == g;
    }
  }

  lemma InsertLinks(flds: seq<Fld>, d: int, f: Fld, info: seq<Info>)
    requires 0 <= d < |flds| && flds[d] == ZERO_FLD && LinksOK(flds, info)
    ensures LinksOK(flds[d := f], info)
  {
    forall i ensures Linkable(flds, i) ==> Linkable(flds[d := f], i) {}
  }

  // ----- giving field `p` the companion `f` in the unused record `c`

  function Attach(flds: seq<Fld>, p: int, c: int, f: Fld): seq<Fld>
    requires 0 <= p < |flds| && 0 <= c < |flds|
  {
    flds[p := flds[p].(nnFldId := c)][c := f]
  }

  ghost predicate Attachable(tbls: seq<Tbl>, flds: seq<Fld>, p: int, c: int, f: Fld) {
    && Alone(flds, p) && 0 <= c < |flds| && flds[c] == ZERO_FLD
    && RecordOK(tbls, f) && f.aux == NN && f.parentId == p && f.tblId == flds[p].tblId &&
        f.name == NN_PREFIX + flds[p].name
  }

  lemma AttachRecord(tbls: seq<Tbl>, flds: seq<Fld>, p: int, c: int, f: Fld)
    requires RecordsOK(tbls, flds) && NamesOK(flds) && Attachable(tbls, flds, p, c, f)
    ensures RecordsOK(tbls, Attach(flds, p, c, f)) && NamesOK(Attach(flds, p, c, f))
  {
    var now := Attach(flds, p, c, f);
    forall j | 0 <= j < |now| ensures j != c ==>
        now[j].name == flds[j].name && now[j].tblId == flds[j].tblId && now[j].aux == flds[j].aux {}
  }

  lemma AttachPairs(tbls: seq<Tbl>, flds: seq<Fld>, p: int, c: int, f: Fld)
    requires PairsOK(flds) && Attachable(tbls, flds, p, c, f)
    ensures PairsOK(Attach(flds, p, c, f))
  {
    var now := Attach(flds, p, c, f);
    forall j | 0 <= j < |now| ensures DownOK(now, j) && UpOK(now, j) {
      assert DownOK(flds, j) && UpOK(flds, j);
    }
  }

  lemma AttachFiles(tbls: seq<Tbl>, flds: seq<Fld>, p: int, c: int, f: Fld, files: Files)
    requires FilesOK(flds, files) && Attachable(tbls, flds, p, c, f)
    requires FileOf(f) in files && files[FileOf(f)] == f.filesz && FileOf(f) !in Owned(flds)
    ensures FilesOK(Attach(flds, p, c, f), files) && Owned(Attach(flds, p, c, f)) == Owned(flds) + {FileOf(f)}
  {
    var mid := flds[p := flds[p].(nnFldId := c)];
    SameFiles(flds, mid, files);
    NewFile(mid, c, f, files);
  }

  lemma SameFiles(a: seq<Fld>, b: seq<Fld>, files: Files)
    requires |a| == |b| && FilesOK(a, files)
    requires forall j :: 0 <= j < |a| ==>
        b[j].name == a[j].name && FileOf(b[j]) == FileOf(a[j]) && b[j].filesz == a[j].filesz
    ensures FilesOK(b, files) && Owned(b) == Owned(a)
  {
    forall g | g in Owned(a) ensures g in Owned(b) {
      var j :| 0 <= j < |a| && Live(a[j]) && FileOf(a[j]) == g;
      assert Live(b[j]) && FileOf(b[j]) == g;
    }
    forall g | g in Owned(b) ensures g in Owned(a) {
      var j :| 0 <= j < |b| && Live(b[j]) && FileOf(b[j]) == g;
      assert Live(a[j]) && FileOf(a[j]) == g;
    }
  }

  lemma AttachLinks(tbls: seq<Tbl>, flds: seq<Fld>, p: int, c: int, f: Fld, info: seq<Info>)
    requires LinksOK(flds, info) && Attachable(tbls, flds, p, c, f)
    ensures LinksOK(Attach(flds, p, c, f), info)
  {
    forall i ensures Linkable(flds, i) ==> Linkable(Attach(flds, p, c, f), i) {}
  }

  // ----- the updates as a whole

  lemma DropKeeps(tbls: seq<Tbl>, flds: seq<Fld>, info: seq<Info>, files: Files, p: int, c: int)
    requires Inv(tbls, flds, info, files) && Paired(flds, p, c)
    ensures Inv(tbls, Drop(flds, p, c), info, files)
    ensures Inv(tbls, Drop(flds, p, c), info, files - {FileOf(flds[c])})
    ensures Owned(Drop(flds, p, c)) == Owned(flds) - {FileOf(flds[c])}
  {
    DropRecords(tbls, flds, p, c);
    DropPairs(flds, p, c);
    DropNames(flds, p, c);
    DropFiles(flds, p, c, files);
    DropOwned(flds, p, c, files);
    DropLinks(flds, p, c, info);
  }

  lemma ClearKeeps(tbls: seq<Tbl>, flds: seq<Fld>, info: seq<Info>, files: Files, i: int, now: seq<Info>)
    requires Inv(tbls, flds, info, files) && Alone(flds, i)
    requires forall r :: r in Links(info) ==> r.dictId != i
    requires Ordered(now) && Links(now) == Survivors(Links(info), i)
    ensures Inv(tbls, flds[i := ZERO_FLD], now, files - {FileOf(flds[i])})
    ensures Owned(flds[i := ZERO_FLD]) == Owned(flds) - {FileOf(flds[i])}
    ensures forall r :: r in Links(now) <==> r in Links(info) && r.fldId != i
  {
    ClearRecord(tbls, flds, i);
    ClearFiles(flds, i, files);
    ClearLinks(flds, i, info, now);
  }

  lemma InsertKeeps(tbls: seq<Tbl>, flds: seq<Fld>, info: seq<Info>, files: Files, d: int, f: Fld)
    requires Inv(tbls, flds, info, files) && Insertable(tbls, flds, files, d, f)
    ensures Inv(tbls, flds[d := f], info, files) && Owned(flds[d := f]) == Owned(flds) + {FileOf(f)}
  {
    InsertRecord(tbls, flds, files, d, f);
    InsertFiles(tbls, flds, files, d, f);
    InsertLinks(flds, d, f, info);
  }

  lemma AttachKeeps(tbls: seq<Tbl>, flds: seq<Fld>, info: seq<Info>, files: Files, p: int, c: int, f: Fld)
    requires Inv(tbls, flds, info, files) && Attachable(tbls, flds, p, c, f)
    requires FileOf(f) in files && files[FileOf(f)] == f.filesz && FileOf(f) !in Owned(flds)
    ensures Inv(tbls, Attach(flds, p, c, f), info, files)
    ensures Owned(Attach(flds, p, c, f)) == Owned(flds) + {FileOf(f)}
  {
    AttachRecord(tbls, flds, p, c, f);
    AttachPairs(tbls, flds, p, c, f);
    AttachFiles(tbls, flds, p, c, f, files);
    AttachLinks(tbls, flds, p, c, f, info);
  }

  /** A table record may change while no live field is in that table. */
  lemma TableKeeps(tbls: seq<Tbl>, flds: seq<Fld>, info: seq<Info>, files: Files, t: int, x: Tbl)
    requires Inv(tbls, flds, info, files) && 0 <= t < |tbls| && TablesOK(tbls[t := x])
    requires forall i :: 0 <= i < |flds| ==> flds[i].tblId != t
    ensures Inv(tbls[t := x], flds, info, files)
  {
    var now := tbls[t := x];
    forall i | 0 <= i < |flds| && flds[i] != ZERO_FLD ensures RecordOK(now, flds[i]) {
      assert RecordOK(tbls, flds[i]);
      assert now[flds[i].tblId] == tbls[flds[i].tblId];
    }
  }

  /** A further link of a field that has none. */
  lemma LinkKeeps(tbls: seq<Tbl>, flds: seq<Fld>, info: seq<Info>, files: Files, now: seq<Info>, f: int, d: int)
    requires Inv(tbls, flds, info, files) && Linkable(flds, f) && Linkable(flds, d)
    requires forall r :: r in Links(info) ==> r.fldId != f
    requires Ordered(now) && multiset(Links(now)) == multiset(Links(info)) + multiset{Info(1, f, d)}
    ensures Inv(tbls, flds, now, files)
    ensures forall r :: r in Links(now) <==> r in Links(info) || r == Info(1, f, d)
  {
    forall r ensures r in Links(now) <==> r in Links(info) || r == Info(1, f, d) {
      assert r in Links(now) <==> r in multiset(Links(now));
      assert r in Links(info) <==> r in multiset(Links(info));
    }
    SingleMore(Links(info), Links(now), Info(1, f, d));
  }

  lemma SingleMore(a: seq<Info>, b: seq<Info>, x: Info)
    requires Single(a) && multiset(b) == multiset(a) + multiset{x} && forall r :: r in a ==> r.fldId != x.fldId
    ensures Single(b)
  {
    forall i, j | 0 <= i < j < |b| ensures b[i].fldId != b[j].fldId {
      OnceMore(a, b, x, b[i]);
      TwiceCounts(b, i, j);
      assert b[i] in multiset(b) && b[j] in multiset(b);
      assert b[j] in multiset(a) || b[j] == x;
      assert b[i] in multiset(a) || b[i] == x;
      assert b[i] in multiset(a) ==> b[i] in a;
      assert b[j] in multiset(a) ==> b[j] in a;
    }
  }

  lemma {:induction false} SingleOnce(a: seq<Info>, y: Info)
    requires Single(a)
    ensures multiset(a)[y] <= 1
  {
    if a != [] {
      SingleOnce(a[1..], y);
      assert a == [a[0]] + a[1..];
      assert forall k :: 0 <= k < |a[1..]| ==> a[1..][k] != a[0];
      assert a[0] !in a[1..];
    }
  }

  lemma OnceMore(a: seq<Info>, b: seq<Info>, x: Info, y: Info)
    requires Single(a) && multiset(b) == multiset(a) + multiset{x} && forall r :: r in a ==> r.fldId != x.fldId
    ensures multiset(b)[y] <= 1
  {
    SingleOnce(a, y);
  }

  lemma TwiceCounts(b: seq<Info>, i: nat, j: nat)
    requires i < j < |b|
    ensures b[i] == b[j] ==> multiset(b)[b[i]] >= 2
  {
    assert b == b[..j] + b[j..];
    assert b[..j][i] == b[i] && b[j..][0] == b[j];
    assert b[i] in multiset(b[..j]) && b[j] in multiset(b[j..]);
  }
}
