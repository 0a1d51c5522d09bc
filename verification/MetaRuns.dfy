/**
 Whole runs of metadata commands.  Every command does what it says to the state
 its predecessor left, the invariant holds in between, and at the end exactly
 those files are gone that a record owned at some moment and none owns any more.
 */
module MetaRuns {
  import opened MetaLinks
  import opened MetaRecords
  import opened MetaUpdates
  import opened MetaStore

  datatype Cmd =
    | AddTable(tbl: string, nR: int)
    | DelTable(tbl: string)
    | AddField(t: int, fld: string, fldtype: FldType, len: int, file: File)
    | DelField(tbl: string, fld: string)
    | AddNn(tbl: string, fld: string, fldtype: FldType, file: File)
    | DropNn(tbl: string, fld: string)
    | BreakNn(srcTbl: string, srcFld: string, dstTbl: string, dstFld: string)
    | SetDict(f: int, d: int)

  /**
   What a caller owes: a file it hands in belongs to no record yet; a field
   that gets a dictionary is a primary one and has none yet.
   */
  predicate Duty(cmd: Cmd, flds: seq<Fld>, info: seq<Info>) {
    match cmd
    case AddField(_, _, _, _, x) => forall i :: 0 <= i < |flds| && Live(flds[i]) ==> FileOf(flds[i]) != x
    case AddNn(_, _, _, x) => forall i :: 0 <= i < |flds| && Live(flds[i]) ==> FileOf(flds[i]) != x
    case SetDict(f, _) => Linkable(flds, f) && forall i :: 0 <= i < |Links(info)| ==> Links(info)[i].fldId != f
    case _ => true
  }

  /** The store at one moment. */
  datatype Snap = Snap(tbls: seq<Tbl>, flds: seq<Fld>, info: seq<Info>, files: Files)

  function Now(store: Store): Snap
    reads store
  {
    Snap(store.tbls, store.flds, store.info, store.files)
  }

  /** What a command does to the records, and the status or record number `r` it returns. */
  ghost predicate Done(cmd: Cmd, a: Snap, r: int, b: Snap, nDdir: nat) {
    && (!cmd.AddTable? && !cmd.DelTable? ==> b.tbls == a.tbls)
    && match cmd
       case AddTable(tbl, nR) => TableAdded(a, r, b, tbl, nR)
       case DelTable(tbl) => TableDeleted(a, r, b, tbl)
       case AddField(t, fld, fldtype, len, x) => FieldAdded(a, r, b, nDdir, t, fld, fldtype, len, x)
       case DelField(tbl, fld) => FieldDeleted(a, r, b, tbl, fld)
       case AddNn(tbl, fld, fldtype, x) => NnAdded(a, r, b, nDdir, tbl, fld, fldtype, x)
       case DropNn(tbl, fld) => NnDropped(a, r, b, tbl, fld)
       case BreakNn(srcTbl, srcFld, dstTbl, dstFld) => NnBroken(a, r, b, nDdir, srcTbl, srcFld, dstTbl, dstFld)
       case SetDict(f, d) => DictSet(a, r, b, f, d)
  }

  /** An old table of that name is gone with its fields; the new one is empty; nothing else is touched. */
  ghost predicate TableAdded(a: Snap, r: int, b: Snap, tbl: string, nR: int) {
    var t := TableAt(a.tbls, tbl);
    && (!GoodName(tbl) || nR <= 0 || t == -1 ==> b.flds == a.flds && b.info == a.info)
    && (t != -1 ==> OnlyFrom(a.flds, t, b.flds) && OnlyLinksFrom(a.flds, a.info, t, b.info) && (r == -1 || r == t))
    && (r == -1 <==>
          || !GoodName(tbl) || nR <= 0
          || (if t == -1 then forall k :: 0 <= k < |a.tbls| ==> a.tbls[k].name != ""
              else !Deletable(a.flds, a.info, t)))
    && (r == -1 ==> b.tbls == a.tbls)
    && (r != -1 ==>
          && 0 <= r < |a.tbls| && b.tbls == a.tbls[r := Tbl(tbl, nR)] && a.tbls[r].name in {"", tbl}
          && forall i :: 0 <= i < |b.flds| ==> b.flds[i].tblId != r)
  }

  /** The table and all its fields are gone, or a field of it cannot be deleted; nothing else is touched. */
  ghost predicate TableDeleted(a: Snap, r: int, b: Snap, tbl: string) {
    var t := TableAt(a.tbls, tbl);
    if tbl == "" || t == -1 then
      b.tbls == a.tbls && b.flds == a.flds && b.info == a.info && r == if tbl == "" then -1 else 0
    else
      && 0 <= t < |a.tbls|
      && OnlyFrom(a.flds, t, b.flds) && OnlyLinksFrom(a.flds, a.info, t, b.info)
      && r == (if Deletable(a.flds, a.info, t) then 0 else -1)
      && if r == 0 then b.tbls == a.tbls[t := ZERO_TBL] && forall j :: 0 <= j < |b.flds| ==> b.flds[j].tblId != t
         else b.tbls == a.tbls
  }

  /** The new record is written behind the removal of an old field of that name. */
  ghost predicate FieldAdded(a: Snap, r: int, b: Snap, nDdir: nat, t: int, fld: string, fldtype: FldType, len: int,
                             x: File) {
    var f := Fld(fld, t, x.ddir, x.no, 0, -1, -1, Primary, fldtype, len);
    if !Acceptable(a.tbls, a.files, nDdir, f) then
      r == -1 && b == a
    else
      var room := Room(a.flds, a.info, t, fld);
      && Links(b.info) == RoomLinks(a.flds, a.info, t, fld) && Kept(a.flds, a.files, room, b.files)
      && (r == -1 <==> NoRoom(a.flds, a.info, t, fld))
      && (r == -1 ==> b.flds == room)
      && (r != -1 ==> 0 <= r < |room| && room[r] == ZERO_FLD && b.flds == room[r := f.(filesz := a.files[x])])
  }

  /** The named field is gone with its companion and its links, and no other. */
  ghost predicate FieldDeleted(a: Snap, r: int, b: Snap, tbl: string, fld: string) {
    var e := FieldAt(a.tbls, a.flds, tbl, fld);
    if e == -1 then
      && b.flds == a.flds && b.info == a.info
      && r == if tbl == "" || (TableAt(a.tbls, tbl) != -1 && fld == "") then -1 else 0
    else
      0 <= e < |a.flds| && Deletes(a.flds, a.info, e, b.flds, b.info, r)
  }

  /** The old companion is gone, the new one in place where it is accepted. */
  ghost predicate NnAdded(a: Snap, r: int, b: Snap, nDdir: nat, tbl: string, fld: string, fldtype: FldType, x: File) {
    var p := FieldAt(a.tbls, a.flds, tbl, fld);
    && b.info == a.info
    && if p == -1 || fldtype !in {I1, B} || x.no < 0 then r == -1 && b.flds == a.flds && b.files == a.files
       else
         && 0 <= p < |a.flds|
         && Kept(a.flds, a.files, Bare(a.flds, p), b.files)
         && Companion(b.files, nDdir, Bare(a.flds, p), p, fldtype, x, b.flds, r)
  }

  ghost predicate NnDropped(a: Snap, r: int, b: Snap, tbl: string, fld: string) {
    var p := FieldAt(a.tbls, a.flds, tbl, fld);
    && b.info == a.info
    && r == (if tbl == "" || fld == "" || TableAt(a.tbls, tbl) == -1 then -1 else 0)
    && if p == -1 then b.flds == a.flds else 0 <= p < |a.flds| && b.flds == Bare(a.flds, p)
  }

  /** The companion has become a primary field of its own. */
  ghost predicate NnBroken(a: Snap, r: int, b: Snap, nDdir: nat, srcTbl: string, srcFld: string, dstTbl: string,
                           dstFld: string) {
    var p := FieldAt(a.tbls, a.flds, srcTbl, srcFld);
    var d := TableAt(a.tbls, dstTbl);
    if !Breakable(a.tbls, a.flds, a.files, nDdir, p, d, TableAt(a.tbls, srcTbl), dstTbl, dstFld) || srcFld == dstFld
    then r == -1 && b.flds == a.flds && b.info == a.info
    else Broken(a.flds, a.info, p, d, dstFld, b.flds, b.info, r)
  }

  /** One more link. */
  ghost predicate DictSet(a: Snap, r: int, b: Snap, f: int, d: int) {
    && b.flds == a.flds
    && r == (if 0 <= f < |a.flds| && 0 <= d < |a.flds| && a.flds[d].fldtype in {SC, SV} && Used(a.info) < |a.info|
             then 0 else -1)
    && (r == -1 ==> b.info == a.info)
    && (r == 0 ==> multiset(Links(b.info)) == multiset(Links(a.info)) + multiset{Info(1, f, d)})
  }

  /** A command that succeeds although its caller fails its duty; exactly then the invariant is lost. */
  predicate Breaks(cmd: Cmd, a: Snap, r: int) { !Duty(cmd, a.flds, a.info) && r != -1 }

  /** The command is done.  The invariant holds afterwards unless it breaks, and files go only with their owners. */
  ghost predicate Ran(cmd: Cmd, a: Snap, r: int, b: Snap, nDdir: nat) {
    && Done(cmd, a, r, b, nDdir)
    && if Breaks(cmd, a, r) then !SnapOK(b) else SnapOK(b) && Kept(a.flds, a.files, b.flds, b.files)
  }

  ghost predicate SnapOK(s: Snap) { Inv(s.tbls, s.flds, s.info, s.files) }

  // ----- one command, whatever the caller hands in

  method RunAddField(store: Store, t: int, fld: string, fldtype: FldType, len: int, x: File) returns (r: int)
    requires store.Valid()
    modifies store
    ensures Ran(AddField(t, fld, fldtype, len, x), old(Now(store)), r, Now(store), store.nDdir)
  {
    r := store.AddFld(t, fld, fldtype, len, x.ddir, x.no);
  }

  method RunAddNn(store: Store, tbl: string, fld: string, fldtype: FldType, x: File) returns (r: int)
    requires store.Valid()
    modifies store
    ensures Ran(AddNn(tbl, fld, fldtype, x), old(Now(store)), r, Now(store), store.nDdir)
  {
    r := store.AddAuxNn(tbl, fld, fldtype, x.ddir, x.no);
  }

  method RunSetDict(store: Store, f: int, d: int) returns (r: int)
    requires store.Valid()
    modifies store
    ensures Ran(SetDict(f, d), old(Now(store)), r, Now(store), store.nDdir)
  {
    KeptSame(store.flds, store.files);
    r := store.AddDict(f, d);
  }

  method Execute(store: Store, cmd: Cmd) returns (r: int)
    requires store.Valid()
    modifies store
    ensures Ran(cmd, old(Now(store)), r, Now(store), store.nDdir)
  {
    match cmd
    case AddField(t, fld, fldtype, len, x) => r := RunAddField(store, t, fld, fldtype, len, x);
    case AddNn(tbl, fld, fldtype, x) => r := RunAddNn(store, tbl, fld, fldtype, x);
    case SetDict(f, d) => r := RunSetDict(store, f, d);
    case _ => r := Perform(store, cmd);
  }

  /** The commands that a caller owes nothing for. */
  method Perform(store: Store, cmd: Cmd) returns (r: int)
    requires store.Valid() && !cmd.AddField? && !cmd.AddNn? && !cmd.SetDict?
    modifies store
    ensures store.Valid() && Kept(old(store.flds), old(store.files), store.flds, store.files)
    ensures Done(cmd, old(Now(store)), r, Now(store), store.nDdir)
  {
    match cmd
    case AddTable(tbl, nR) => r := store.AddTbl(tbl, nR);
    case DelTable(tbl) => r := store.DelTbl(tbl);
    case DelField(tbl, fld) => r := store.DelFld(tbl, fld);
    case DropNn(tbl, fld) => r := store.DropAux(tbl, fld);
    case BreakNn(srcTbl, srcFld, dstTbl, dstFld) => r := store.BreakNn(srcTbl, srcFld, dstTbl, dstFld);
  }

  /** What a run does to the files: those in `ever` were owned at some moment. */
  ghost predicate Accounted(files0: Files, ever: set<File>, flds: seq<Fld>, files: Files) {
    Owned(flds) <= ever && files == files0 - (ever - Owned(flds))
  }

  lemma AccountedStep(files0: Files, ever: set<File>, flds: seq<Fld>, files: Files, flds': seq<Fld>, files': Files)
    requires Accounted(files0, ever, flds, files) && Kept(flds, files, flds', files') && FilesOK(flds', files')
    ensures Accounted(files0, ever + Owned(flds'), flds', files')
  {
    forall x | x in files0 ensures x in files' <==> x !in (ever + Owned(flds')) - Owned(flds') {
      if x in Owned(flds') { OwnedExists(flds', files', x); }
    }
  }

  ghost predicate StepAt(cmds: seq<Cmd>, rs: seq<int>, trace: seq<Snap>, nDdir: nat, i: int)
    requires 0 <= i < |cmds| && i < |rs| && i + 1 < |trace|
  {
    Ran(cmds[i], trace[i], rs[i], trace[i+1], nDdir)
  }

  /** `trace` are the states before, between and after the first commands, `rs` what these returned. */
  ghost predicate Traced(cmds: seq<Cmd>, rs: seq<int>, trace: seq<Snap>, nDdir: nat) {
    && |rs| <= |cmds| && |trace| == |rs| + 1
    && (forall i {:trigger StepAt(cmds, rs, trace, nDdir, i)} :: 0 <= i < |rs| ==> StepAt(cmds, rs, trace, nDdir, i))
    && (forall i {:trigger SnapOK(trace[i])} :: 0 <= i < |trace| ==> SnapOK(trace[i]))
  }

  /** Files in the hands of a record at some moment. */
  ghost function EverOwned(trace: seq<Snap>): set<File> {
    set i, x | 0 <= i < |trace| && x in Owned(trace[i].flds) :: x
  }

  lemma TracedMore(cmds: seq<Cmd>, rs: seq<int>, trace: seq<Snap>, nDdir: nat, r: int, s: Snap)
    requires Traced(cmds, rs, trace, nDdir) && |rs| < |cmds| && SnapOK(s)
    requires Ran(cmds[|rs|], trace[|rs|], r, s, nDdir)
    ensures Traced(cmds, rs + [r], trace + [s], nDdir)
  {
    var rs', trace' := rs + [r], trace + [s];
    forall i | 0 <= i < |rs'| ensures StepAt(cmds, rs', trace', nDdir, i) {
      if i < |rs| { assert StepAt(cmds, rs, trace, nDdir, i); }
    }
    forall i | 0 <= i < |trace'| ensures SnapOK(trace'[i]) {
      if i < |trace| { assert SnapOK(trace[i]); }
    }
  }

  lemma EverMore(trace: seq<Snap>, s: Snap)
    ensures EverOwned(trace + [s]) == EverOwned(trace) + Owned(s.flds)
  {
    var trace' := trace + [s];
    forall x | x in EverOwned(trace) ensures x in EverOwned(trace') {
      var i :| 0 <= i < |trace| && x in Owned(trace[i].flds);
      assert trace'[i] == trace[i];
    }
    forall x | x in Owned(s.flds) ensures x in EverOwned(trace') { assert trace'[|trace|] == s; }
  }

  /**
   Runs all commands, or up to the first that breaks the invariant; `n` come
   before that.  They are done, one after the other, the invariant holds in
   between, and exactly those files are gone that a record owned at some moment
   and none owns any more.
   */
  method Run(store: Store, cmds: seq<Cmd>) returns (n: nat, broke: bool, rs: seq<int>, ghost trace: seq<Snap>)
    requires store.Valid()
    modifies store
    ensures |rs| == n <= |cmds| && Traced(cmds, rs, trace, store.nDdir) && trace[0] == old(Now(store))
    ensures Accounted(old(store.files), EverOwned(trace), trace[n].flds, trace[n].files)
    ensures !broke ==> n == |cmds| && store.Valid() && trace[n] == Now(store)
    ensures broke ==> n < |cmds| && !store.Valid() && !Duty(cmds[n], trace[n].flds, trace[n].info)
    ensures broke ==> exists r :: r != -1 && Done(cmds[n], trace[n], r, Now(store), store.nDdir)
  {
    n, broke, rs, trace := 0, false, [], [Now(store)];
    assert EverOwned(trace) == Owned(store.flds) by { assert trace[0].flds == store.flds; }
    while n < |cmds|
      invariant n <= |cmds| && store.Valid()
      invariant Accounted(old(store.files), EverOwned(trace), store.flds, store.files)
      invariant |rs| == n && Traced(cmds, rs, trace, store.nDdir)
      invariant trace[0] == old(Now(store)) && trace[n] == Now(store)
    {
      var now := Now(store);
      var r := Execute(store, cmds[n]);
      if Breaks(cmds[n], now, r) {
        broke := true;
        return;
      }
      trace := RunOne(cmds, rs, trace, r, now, Now(store), store.nDdir, old(store.files));
      rs := rs + [r];
      n := n + 1;
    }
  }

  /** One more command that does not break. */
  lemma RunOne(cmds: seq<Cmd>, rs: seq<int>, trace: seq<Snap>, r: int, a: Snap, b: Snap, nDdir: nat, files0: Files)
    returns (more: seq<Snap>)
    requires |rs| < |cmds| && Traced(cmds, rs, trace, nDdir) && trace[|rs|] == a
    requires Ran(cmds[|rs|], a, r, b, nDdir) && !Breaks(cmds[|rs|], a, r)
    requires Accounted(files0, EverOwned(trace), a.flds, a.files)
    ensures more == trace + [b] && Traced(cmds, rs + [r], more, nDdir)
    ensures Accounted(files0, EverOwned(more), b.flds, b.files)
  {
    more := trace + [b];
    TracedMore(cmds, rs, trace, nDdir, r, b);
    EverMore(trace, b);
    AccountedStep(files0, EverOwned(trace), a.flds, a.files, b.flds, b.files);
  }
}
