/**
 Table and field records (q-base/src/qtypes.h, q-base/src/aux_meta.c) and the
 invariant that ties them to each other, to the dictionary links and to the
 files on disk.
 */
module MetaRecords {
  import opened MetaLinks

  datatype FldType = Undef | B | I1 | I2 | I4 | I8 | F4 | F8 | SC | SV

  /** undef_auxtype and nn. */
  datatype AuxType = Primary | NN

  /** A data file: its directory and its number. */
  datatype File = File(ddir: int, no: int)

  datatype Tbl = Tbl(name: string, nR: int)

  datatype Fld = Fld(name: string, tblId: int, ddirId: int, fileno: int, filesz: nat,
                     parentId: int, nnFldId: int, aux: AuxType, fldtype: FldType, len: int)

  const ZERO_TBL := Tbl("", 0)
  const ZERO_FLD := Fld("", -1, -1, 0, 0, -1, -1, Primary, Undef, 0)

  const MAX_LEN_NAME := 31
  const MAX_LEN_STR := 32765
  const NN_PREFIX: string := ".nn."

  predicate NameChar(c: char) {
    c == '_' || '0' <= c <= '9' || 'a' <= c <= 'z' || 'A' <= c <= 'Z'
  }

  /** chk_fld_name and chk_tbl_name. */
  predicate GoodName(s: string) {
    0 < |s| <= MAX_LEN_NAME && forall i :: 0 <= i < |s| ==> NameChar(s[i])
  }

  function RoundUp(n: int, unit: int): int
    requires unit > 0
  {
    if n % unit == 0 then n / unit else n / unit + 1
  }

  /** chk_file_size: does a file of `size` bytes hold `nR` values of this type? */
  predicate SizeFits(nR: int, t: FldType, len: int, size: int) {
    && size > 0
    && match t
       case Undef => false
       case B => size == 1024 * RoundUp(RoundUp(nR, 8), 1024)
       case I1 => size == nR
       case I2 => size == 2 * nR
       case I4 => size == 4 * nR
       case I8 => size == 8 * nR
       case F4 => size == 4 * nR
       case F8 => size == 8 * nR
       case SC => len > 1 && size == (len + 1) * nR
       case SV => true
  }

  /** The bytes per value: 1, 2, 4, 8, 4, 8, and the length of a string with its NUL. */
  lemma WidthsExact(nR: int, len: int, size: int)
    requires nR > 0
    ensures SizeFits(nR, I1, len, size) <==> size == nR
    ensures SizeFits(nR, I2, len, size) <==> size == nR + nR
    ensures SizeFits(nR, I4, len, size) == SizeFits(nR, F4, len, size) == (size == 4 * nR)
    ensures SizeFits(nR, I8, len, size) == SizeFits(nR, F8, len, size) == (size == 8 * nR)
    ensures SizeFits(nR, SC, len, size) <==> len > 1 && size == len * nR + nR
  {
    assert (len + 1) * nR == len * nR + nR;
    assert len > 1 ==> len * nR > 0;
  }

  lemma RoundUpIs(n: int, unit: int)
    requires unit > 0
    ensures unit * (RoundUp(n, unit) - 1) < n <= unit * RoundUp(n, unit)
  {
  }

  /** Bits fill the least number of kilobytes, at eight to the byte. */
  lemma BitsFill(nR: int, len: int, kb: int)
    requires nR > 0
    ensures SizeFits(nR, B, len, 1024 * kb) <==> 8192 * (kb - 1) < nR <= 8192 * kb
  {
    var bytes := RoundUp(nR, 8);
    RoundUpIs(nR, 8);
    RoundUpIs(bytes, 1024);
  }

  /** chk_fld_name and chk_tbl_name: the loop over the characters (aux_meta.c:739-759, 841-865). */
  method ChkName(s: string) returns (ok: bool)
    ensures ok <==> GoodName(s)
  {
    if |s| == 0 || |s| > 31 { return false; }
    for i := 0 to |s|
      invariant forall k :: 0 <= k < i ==> NameChar(s[k])
    {
      var c := s[i];
      if !(c == '_' || '0' <= c <= '9' || 'a' <= c <= 'z' || 'A' <= c <= 'Z') { return false; }
    }
    return true;
  }

  /** get_fld_sz; -1 for the types without a fixed size (aux_meta.c:600-622). */
  method GetFldSz(t: FldType) returns (sz: int)
    ensures t in {I1, I2, I4, I8, F4, F8} ==>
              forall nR, len, size :: nR > 0 ==> (SizeFits(nR, t, len, size) <==> sz * nR == size)
  {
    match t {
      case I1 => sz := 1;
      case I2 => sz := 2;
      case I4 => sz := 4;
      case I8 => sz := 8;
      case F4 => sz := 4;
      case F8 => sz := 8;
      case _ => sz := -1;
    }
  }

  /** chk_file_size, on a file of `size` bytes. */
  method ChkFileSize(nR: int, t: FldType, len: int, size: int) returns (ok: bool)
    ensures ok <==> nR > 0 && SizeFits(nR, t, len, size)
  {
    if nR <= 0 || size <= 0 || t == Undef { return false; }
    match t {
      case SV => return true;
      case SC => return len > 1 && (len + 1) * nR == size;
      case B =>
        var bytes := if nR % 8 == 0 then nR / 8 else nR / 8 + 1;
        var blocks := if bytes % 1024 == 0 then bytes / 1024 else bytes / 1024 + 1;
        return size == 1024 * blocks;
      case _ =>
        var sz := GetFldSz(t);
        return sz * nR == size;
    }
  }

  /** A file of one byte per row holds an I1 field and no I4 field. */
  lemma ByteFileIsNotI4(nR: int)
    requires nR > 0
    ensures SizeFits(nR, I1, 0, nR) && !SizeFits(nR, I4, 0, nR)
  {}

  predicate Live(f: Fld) { f.name != "" }

  function FileOf(f: Fld): File { File(f.ddirId, f.fileno) }

  predicate InTable(tbls: seq<Tbl>, t: int) {
    0 <= t < |tbls| && tbls[t].name != ""
  }

  // ----- the invariant, part by part

  ghost predicate TablesOK(tbls: seq<Tbl>) {
    && |tbls| > 0
    && (forall t :: 0 <= t < |tbls| ==> tbls[t] == ZERO_TBL || (GoodName(tbls[t].name) && tbls[t].nR > 0))
    && (forall t, u :: 0 <= t < u < |tbls| && tbls[t].name != "" ==> tbls[t].name != tbls[u].name)
  }

  /** One live record by itself. */
  predicate RecordOK(tbls: seq<Tbl>, f: Fld) {
    && Live(f) && InTable(tbls, f.tblId) && f.ddirId >= 0 && f.nnFldId >= -1
    && match f.aux
       case Primary => f.fileno > 0 && f.parentId == -1 && GoodName(f.name) &&
           SizeFits(tbls[f.tblId].nR, f.fldtype, f.len, f.filesz)
       case NN => f.fileno >= 0 && f.nnFldId == -1 && f.fldtype in {I1, B} && f.len == 0
  }

  ghost predicate RecordsOK(tbls: seq<Tbl>, flds: seq<Fld>) {
    forall i :: 0 <= i < |flds| ==> flds[i] == ZERO_FLD || RecordOK(tbls, flds[i])
  }

  /** Record `i` points to its companion, if it has one, and the companion back. */
  predicate DownOK(flds: seq<Fld>, i: int)
    requires 0 <= i < |flds|
  {
    var c := flds[i].nnFldId;
    c >= 0 ==>
      c < |flds| && flds[c].aux == NN && flds[c].parentId == i && flds[c].tblId == flds[i].tblId
  }

  /** A companion's parent points back, is a primary field and gives the companion its name. */
  predicate UpOK(flds: seq<Fld>, i: int)
    requires 0 <= i < |flds|
  {
    flds[i].aux == NN ==>
      var p := flds[i].parentId;
      0 <= p < |flds| && Live(flds[p]) && flds[p].aux == Primary && flds[p].nnFldId == i &&
          flds[i].name == NN_PREFIX + flds[p].name
  }

  ghost predicate PairsOK(flds: seq<Fld>) {
    forall i :: 0 <= i < |flds| ==> DownOK(flds, i) && UpOK(flds, i)
  }

  ghost predicate NamesOK(flds: seq<Fld>) {
    forall i, j | 0 <= i < j < |flds| && Live(flds[i]) && flds[i].tblId == flds[j].tblId && flds[i].aux == Primary &&
        flds[j].aux == Primary ::
      flds[i].name != flds[j].name
  }

  ghost predicate FilesOK(flds: seq<Fld>, files: map<File, nat>) {
    && (forall i :: 0 <= i < |flds| && Live(flds[i]) ==>
        FileOf(flds[i]) in files && files[FileOf(flds[i])] == flds[i].filesz)
    && (forall i, j :: 0 <= i < j < |flds| && Live(flds[i]) && Live(flds[j]) ==> FileOf(flds[i]) != FileOf(flds[j]))
  }

  predicate Linkable(flds: seq<Fld>, i: int) {
    0 <= i < |flds| && Live(flds[i]) && flds[i].aux == Primary
  }

  /** Every dictionary link joins two live primary fields; a field has at most one. */
  ghost predicate LinksOK(flds: seq<Fld>, info: seq<Info>) {
    && Ordered(info) && Single(Links(info))
    && forall r :: r in Links(info) ==> Linkable(flds, r.fldId) && Linkable(flds, r.dictId)
  }

  ghost predicate Inv(tbls: seq<Tbl>, flds: seq<Fld>, info: seq<Info>, files: map<File, nat>) {
    && TablesOK(tbls) && 0 < |flds| <= MAX_ID + 1
    && RecordsOK(tbls, flds) && PairsOK(flds) && NamesOK(flds) && FilesOK(flds, files) && LinksOK(flds, info)
  }

  /** Files in the hands of live records. */
  ghost function Owned(flds: seq<Fld>): set<File> {
    set i | 0 <= i < |flds| && Live(flds[i]) :: FileOf(flds[i])
  }

  /** Names of all live records of a table differ, companions included. */
  lemma AllNamesDiffer(flds: seq<Fld>, tbls: seq<Tbl>, i: nat, j: nat)
    requires RecordsOK(tbls, flds) && PairsOK(flds) && NamesOK(flds)
    requires i < |flds| && j < |flds| && i != j && Live(flds[i]) && Live(flds[j]) && flds[i].tblId == flds[j].tblId
    ensures flds[i].name != flds[j].name
  {
    assert UpOK(flds, i) && UpOK(flds, j);
    if flds[i].aux == NN && flds[j].aux == NN {
      var p, q := flds[i].parentId, flds[j].parentId;
      assert DownOK(flds, p) && DownOK(flds, q);
      assert flds[i].name[4..] == flds[p].name && flds[j].name[4..] == flds[q].name;
    } else if flds[i].aux == NN {
      assert flds[i].name[0] == '.' && NameChar(flds[j].name[0]);
    } else if flds[j].aux == NN {
      assert flds[j].name[0] == '.' && NameChar(flds[i].name[0]);
    }
  }

  // ----- chk_fld_meta

  /**
   The parts of chk_fld_meta (aux_meta.c:97-253) that concern the modelled
   members, on a record of table size `nR`, in the order of the source.
   No dictionary link has the modes that get_fld_info is asked for.
   */
  predicate ChkFldMeta(tbls: seq<Tbl>, flds: seq<Fld>, files: map<File, nat>, i: nat)
    requires i < |flds|
  {
    var m := flds[i];
    && InTable(tbls, m.tblId) && m.ddirId >= 0
    && !(m.fldtype == B && m.nnFldId >= 0)
    && (m.parentId >= 0 ==>
          && m.aux == NN && m.fldtype in {I1, B}
          && m.parentId < |flds| && m.name == NN_PREFIX + flds[m.parentId].name
          && flds[m.parentId].nnFldId >= 0 && m.nnFldId < 0)
    && (if m.len >= 1 then m.fldtype == SC && m.len <= MAX_LEN_STR else m.fldtype != SC && m.len == 0)
    && m.fldtype != SV
    && (m.fldtype == SC ==> 1 <= m.len <= MAX_LEN_STR && m.nnFldId < 0)
    && m.fldtype != Undef
    && (m.aux == Primary ==> GoodName(m.name))
    && m.fileno > 0
    && FileOf(m) in files && files[FileOf(m)] == m.filesz
    && m.fldtype != B
    && (m.fldtype != SC ==> SizeFits(tbls[m.tblId].nR, m.fldtype, m.len, m.filesz))
  }

  /**
   In every state that satisfies the invariant, the repository's own check
   passes on a live record exactly when the points add_fld and add_aux_fld
   leave unchecked hold: no bit fields (get_fld_sz refuses them), no strings
   without length fields or with companions, a string length within bounds,
   a companion with one byte per row in a file numbered above 0.
   */
  lemma CheckExact(tbls: seq<Tbl>, flds: seq<Fld>, info: seq<Info>, files: map<File, nat>, i: nat)
    requires Inv(tbls, flds, info, files) && i < |flds| && Live(flds[i])
    ensures ChkFldMeta(tbls, flds, files, i) <==>
            && flds[i].fldtype !in {B, SV}
            && (if flds[i].fldtype == SC then flds[i].nnFldId < 0 && flds[i].len <= MAX_LEN_STR else flds[i].len == 0)
            && (flds[i].aux == NN ==> flds[i].fileno > 0 && flds[i].filesz == tbls[flds[i].tblId].nR)
  {
    assert RecordOK(tbls, flds[i]) && UpOK(flds, i) && DownOK(flds, i);
  }
}
