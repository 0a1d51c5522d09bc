/**
 exec_comp_expr (q-base/src/compound.c:745-1199): all statements run on one
 block of rows before the next block starts, with temporaries that hold a
 single block.  The result is that of running each statement over the whole
 table in turn.
 */
module CompoundExec {
  import opened CompoundSpec
  import opened CompoundCheck
  import opened CompoundMeaning
  import opened Arithmetic
  import Ranks

  const BLOCK := 1048576   // COMP_EXPR_BLOCK_SIZE

  /** Temporaries (2 * BLOCK rows each), columns, histograms of other tables, and one scalar per statement. */
  datatype State = State(temps: map<Buf, Column>, cols: map<Buf, Column>, hists: map<Buf, seq<int>>, parts: seq<Part>)

  /** The column that field `c` of statement `i` reads. */
  ghost function SrcVal(j: Job, i: nat, c: nat): (v: Column)
    ensures |v| == j.nR
  {
    if i < |j.prog| == |j.slots| && Shaped(j.slots) && c < 4 && j.slots[i][c].X.Some?
       && j.slots[i][c].X.value.row < |j.prog| && j.slots[i][c].X.value.col < 4
    then BufValue(j, j.slots[i][c].X.value) else seq(j.nR, _ => Cell(0, false))
  }

  ghost function MaskVal(j: Job, i: nat, c: nat, cfld: string): (v: Option<Column>)
    ensures v.Some? ==> |v.value| == j.nR
  {
    if cfld == "" then None else Some(SrcVal(j, i, c))
  }

  /** What statement `i` computes for the whole table. */
  ghost function Result(j: Job, i: nat): Column
    requires i < |j.prog|
  {
    match j.prog[i]
    case F1OpF2(_, spec, _) => MapUnary(j.kernels, spec, SrcVal(j, i, 0))
    case F1S1OpF2(_, sc, spec, _) => MapScalar(j.kernels, sc, spec, SrcVal(j, i, 0))
    case F1F2OpF3(_, _, spec, _) => MapBinary(j.kernels, spec, SrcVal(j, i, 0), SrcVal(j, i, 1))
    case _ => []
  }

  /** The slot and name of the column a statement writes. */
  function ColumnOut(s: Stmt): Option<(nat, string)> {
    match s
    case F1OpF2(_, _, f2) => Some((1, f2))
    case F1S1OpF2(_, _, _, f2) => Some((1, f2))
    case F1F2OpF3(_, _, _, f3) => Some((2, f3))
    case _ => None
  }

  /** The histogram of the first `n` rows that statement `i` counts. */
  ghost function Counted(j: Job, i: nat, n: nat): seq<int>
    requires i < |j.prog| && n <= j.nR
  {
    match j.prog[i]
    case Count(_, cfld, otbl, _) =>
      Histogram(ZeroCounts(TableRows(j.sizes, otbl)), SrcVal(j, i, 0)[..n], None, Take(MaskVal(j, i, 1, cfld), n))
    case CountF(_, _, cfld, otbl, _) =>
      Histogram(ZeroCounts(TableRows(j.sizes, otbl)), SrcVal(j, i, 1)[..n], Take(Some(SrcVal(j, i, 0)), n),
          Take(MaskVal(j, i, 2, cfld), n))
    case _ => []
  }

  function HistogramOut(s: Stmt): Option<nat> {
    match s
    case Count(_, _, _, _) => Some(2)
    case CountF(_, _, _, _, _) => Some(3)
    case _ => None
  }

  /** The scalar of the first `n` rows that statement `i` reports. */
  ghost function Scalar(j: Job, i: nat, n: nat): Part
    requires i < |j.prog| && n <= j.nR
  {
    match j.prog[i]
    case FToS(_, agg, _) => Aggregate(agg, SrcVal(j, i, 0)[..n])
    case F1F2ToS(_, _, _) => MaskedSum(SrcVal(j, i, 0)[..n], SrcVal(j, i, 1)[..n])
    case _ => EMPTY_PART
  }

  // ----- the executor invariant

  /** Column `b` is right in its first `done` rows; a live temporary holds rows [lb, ub). */
  ghost predicate ColumnOK(j: Job, st: State, b: Buf, name: string, v: Column, done: nat, live: bool, lb: nat,
                           ub: nat) {
    lb <= ub <= j.nR == |v| && done <= j.nR && ub - lb <= 2 * BLOCK &&
    if IsTemp(name) then b in st.temps && |st.temps[b]| == 2 * BLOCK && (live ==> st.temps[b][..ub-lb] == v[lb..ub])
    else b in st.cols && |st.cols[b]| == j.nR && st.cols[b][..done] == v[..done]
  }

  /** Statements before `i` have done rows up to `ub`, the others up to `lb`. */
  ghost function Done(r: nat, i: nat, lb: nat, ub: nat): nat { if r < i then ub else lb }

  /** The outputs of statement `r`. */
  ghost predicate StmtOK(j: Job, st: State, r: nat, i: nat, lb: nat, ub: nat)
    requires r < |j.prog|
  {
    var done := Done(r, i, lb, ub);
    && done <= j.nR && |st.parts| == |j.prog|
    && (ColumnOut(j.prog[r]).Some? ==>
          ColumnOK(j, st, Buf(r, ColumnOut(j.prog[r]).value.0), ColumnOut(j.prog[r]).value.1, Result(j, r), done,
              r < i, lb, ub))
    && (HistogramOut(j.prog[r]).Some? ==>
          var b := Buf(r, HistogramOut(j.prog[r]).value);
          b in st.hists && |st.hists[b]| == TableRows(j.sizes, j.prog[r].otbl) &&
              (done > 0 ==> st.hists[b] == Counted(j, r, done)))
    && (ColumnOut(j.prog[r]).None? && HistogramOut(j.prog[r]).None? ==> st.parts[r] == Scalar(j, r, done))
  }

  /** Input mappings hold the table's columns throughout. */
  ghost predicate InputsOK(j: Job, st: State) {
    && |j.slots| == |j.prog| && Shaped(j.slots)
    && forall r: nat, c: nat :: r < |j.prog| && c < 4 && IsInput(j.slots[r][c]) ==>
         Buf(r, c) in st.cols && st.cols[Buf(r, c)] == BufValue(j, Buf(r, c))
  }

  predicate IsInput(s: Slot) { s.isWrite == 0 && s.isFirst == 1 }

  ghost predicate Inv(j: Job, st: State, i: nat, lb: nat, ub: nat) {
    && lb <= ub <= j.nR && ub - lb <= 2 * BLOCK
    && InputsOK(j, st)
    && forall r :: 0 <= r < |j.prog| ==> StmtOK(j, st, r, i, lb, ub)
  }

  // ----- names and buffers agree

  lemma ReadValue(j: Job, i: nat, m: nat)
    requires j.Accepted() && NoHistogramReads(j) && i < |j.prog| && m < |j.Us()[i]| && !j.Us()[i][m].write
    ensures SrcVal(j, i, j.Us()[i][m].col) == Col(j.After(i), j.Us()[i][m].name, j.nR)
  {
    ReadsRight(j, i, m);
  }

  /** The columns a statement reads are those its names denote when it runs. */
  lemma Sources(j: Job, i: nat)
    requires j.Accepted() && NoHistogramReads(j) && i < |j.prog|
    ensures var e := j.After(i);
      match j.prog[i]
      case F1OpF2(f1, _, _) => SrcVal(j, i, 0) == Col(e, f1, j.nR)
      case F1S1OpF2(f1, _, _, _) => SrcVal(j, i, 0) == Col(e, f1, j.nR)
      case F1F2OpF3(f1, f2, _, _) => SrcVal(j, i, 0) == Col(e, f1, j.nR) && SrcVal(j, i, 1) == Col(e, f2, j.nR)
      case FToS(f1, _, _) => SrcVal(j, i, 0) == Col(e, f1, j.nR)
      case F1F2ToS(f1, f2, _) => SrcVal(j, i, 0) == Col(e, f1, j.nR) && SrcVal(j, i, 1) == Col(e, f2, j.nR)
      case Count(f1, cfld, _, _) => SrcVal(j, i, 0) == Col(e, f1, j.nR) &&
          MaskVal(j, i, 1, cfld) == MaskCol(e, cfld, j.nR)
      case CountF(f1, f2, cfld, _, _) =>
        SrcVal(j, i, 0) == Col(e, f1, j.nR) && SrcVal(j, i, 1) == Col(e, f2, j.nR) &&
            MaskVal(j, i, 2, cfld) == MaskCol(e, cfld, j.nR)
  {
    var us := Uses(j.prog[i], j.tbl);
    assert j.Us()[i] == us;
    forall m | 0 <= m < |us| && !us[m].write ensures SrcVal(j, i, us[m].col) == Col(j.After(i), us[m].name, j.nR) {
      ReadValue(j, i, m);
    }
    assert !us[0].write && us[0].col == 0;
    if |us| > 1 && !us[1].write { assert us[1].col == 1; }
    if |us| > 2 && !us[2].write { assert us[2].col == 2; }
  }

  /** The buffer a statement writes stands for what the statement computes. */
  lemma ColumnEquation(j: Job, i: nat)
    requires j.Accepted() && NoHistogramReads(j) && i < |j.prog| && ColumnOut(j.prog[i]).Some?
    ensures Shaped(j.slots) && |j.slots| == |j.prog|
    ensures var (c, name) := ColumnOut(j.prog[i]).value;
      c < 3 && Writes(j.slots, i, c, name) && j.slots[i][c].X == Some(Buf(i, c))
      && BufValue(j, Buf(i, c)) == Result(j, i) == Col(j.After(i + 1), name, j.nR)
  {
    AcceptedRows(j);
    var us := j.Us()[i];
    assert us == Uses(j.prog[i], j.tbl);
    assert RowOK(j.slots, i, us, |us|, j.table.Keys);
    assert UseOK(j.slots, i, us[|us|-1], j.table.Keys);
    ResultIsStep(j, i);
  }

  /** What a statement computes is what the whole-table run puts under its output name. */
  lemma ResultIsStep(j: Job, i: nat)
    requires j.Accepted() && NoHistogramReads(j) && i < |j.prog| && ColumnOut(j.prog[i]).Some?
    ensures Result(j, i) == Col(j.After(i + 1), ColumnOut(j.prog[i]).value.1, j.nR)
  {
    Sources(j, i);
    assert j.After(i + 1) == StepWhole(j.kernels, j.prog[i], i, j.After(i), j.nR, j.sizes);
  }

  /** The writer behind a shared slot is the statement whose column the name is. */
  lemma WriterColumn(j: Job, i: nat, m: nat)
    requires j.Accepted() && NoHistogramReads(j) && i < |j.prog| && m < |j.Us()[i]| && !j.Us()[i][m].write
    requires Shaped(j.slots) && |j.slots| == |j.prog| && j.Us()[i][m].col < 4
    requires j.slots[i][j.Us()[i][m].col].isFirst != 1
    ensures var x := j.slots[i][j.Us()[i][m].col].X;
      x.Some? && x.value.row < i && ColumnOut(j.prog[x.value.row]) == Some((x.value.col, j.Us()[i][m].name))
  {
    AcceptedRows(j);
    var u := j.Us()[i][m];
    ReadAfterWrite(j.Us(), j.slots, j.table.Keys, i, m);
    var x := j.slots[i][u.col].X.value;
    WriterKind(j, x.row, x.col, u.name);
    var n := SlotOfUse(j.Us(), j.slots, j.table.Keys, x.row, x.col);
    assert j.Us()[x.row] == Uses(j.prog[x.row], j.tbl);
  }

  // ----- reading a block

  /** offset_pointers: temporaries start at their first row, columns at row `lb`. */
  function ReadBlock(slots: CompoundCheck.Rows, st: State, i: nat, c: nat, lb: nat, ub: nat): Column
    requires i < |slots| && c < |slots[i]| && slots[i][c].X.Some? && lb <= ub
    requires var x := slots[i][c].X.value;
      if slots[i][c].isTemp == 1 then x in st.temps && ub - lb <= |st.temps[x]| else x in st.cols && ub <= |st.cols[x]|
  {
    var x := slots[i][c].X.value;
    if slots[i][c].isTemp == 1 then st.temps[x][..ub-lb] else st.cols[x][lb..ub]
  }

  ghost predicate CanRead(j: Job, st: State, i: nat, c: nat, lb: nat, ub: nat) {
    && i < |j.slots| && c < |j.slots[i]| && j.slots[i][c].X.Some? && lb <= ub
    && var x := j.slots[i][c].X.value;
       if j.slots[i][c].isTemp == 1 then x in st.temps && ub - lb <= |st.temps[x]|
       else x in st.cols && ub <= |st.cols[x]|
  }

  /** Within a block, every field read is the right slice of the whole-table column. */
  lemma BlockRight(j: Job, st: State, i: nat, m: nat, lb: nat, ub: nat)
    requires j.Accepted() && NoHistogramReads(j) && Inv(j, st, i, lb, ub)
    requires i < |j.prog| && m < |j.Us()[i]| && !j.Us()[i][m].write
    ensures CanRead(j, st, i, j.Us()[i][m].col, lb, ub)
    ensures ReadBlock(j.slots, st, i, j.Us()[i][m].col, lb, ub) == SrcVal(j, i, j.Us()[i][m].col)[lb..ub]
  {
    AcceptedRows(j);
    var u := j.Us()[i][m];
    assert RowOK(j.slots, i, j.Us()[i], |j.Us()[i]|, j.table.Keys);
    assert UseOK(j.slots, i, u, j.table.Keys);
    ReadAfterWrite(j.Us(), j.slots, j.table.Keys, i, m);
    var s := j.slots[i][u.col];
    if s.isFirst == 1 {
      assert IsInput(s);
    } else {
      WriterColumn(j, i, m);
      ColumnEquation(j, s.X.value.row);
      assert StmtOK(j, st, s.X.value.row, i, lb, ub);
      SlicePrefix(st, s.X.value, Result(j, s.X.value.row), lb, ub);
    }
  }

  lemma SlicePrefix(st: State, b: Buf, v: Column, lb: nat, ub: nat)
    requires lb <= ub <= |v|
    ensures b in st.cols && ub <= |st.cols[b]| && st.cols[b][..ub] == v[..ub] ==> st.cols[b][lb..ub] == v[lb..ub]
  {
    if b in st.cols && ub <= |st.cols[b]| && st.cols[b][..ub] == v[..ub] {
      assert st.cols[b][lb..ub] == st.cols[b][..ub][lb..] == v[..ub][lb..] == v[lb..ub];
    }
  }

  // ----- writing a block

  function WriteBlock(st: State, isTemp: bool, b: Buf, block: Column, lb: nat): State
    requires if isTemp then b in st.temps && |block| <= |st.temps[b]| else b in st.cols && lb + |block| <= |st.cols[b]|
  {
    if isTemp then st.(temps := st.temps[b := block + st.temps[b][|block|..]])
    else st.(cols := st.cols[b := st.cols[b][..lb] + block + st.cols[b][lb + |block|..]])
  }

  /** Two states agree on everything statement `r` owns. */
  ghost predicate Agree(st: State, st': State, r: nat) {
    && |st.parts| == |st'.parts| && (r < |st.parts| ==> st.parts[r] == st'.parts[r])
    && (forall c: nat :: Buf(r, c) in st.temps ==>
        Buf(r, c) in st'.temps && st'.temps[Buf(r, c)] == st.temps[Buf(r, c)])
    && (forall c: nat :: Buf(r, c) in st.cols ==> Buf(r, c) in st'.cols && st'.cols[Buf(r, c)] == st.cols[Buf(r, c)])
    && (forall c: nat :: Buf(r, c) in st.hists ==>
        Buf(r, c) in st'.hists && st'.hists[Buf(r, c)] == st.hists[Buf(r, c)])
  }

  lemma StmtFrame(j: Job, st: State, st': State, r: nat, i: nat, lb: nat, ub: nat)
    requires r < |j.prog| && r != i && Agree(st, st', r) && StmtOK(j, st, r, i, lb, ub)
    ensures StmtOK(j, st', r, i + 1, lb, ub)
  {}

  /** A step that touches only what statement `i` owns, and leaves it right, keeps the invariant. */
  lemma InvStep(j: Job, st: State, st': State, i: nat, lb: nat, ub: nat)
    requires Inv(j, st, i, lb, ub) && i < |j.prog| && InputsOK(j, st')
    requires forall r: nat :: r != i ==> Agree(st, st', r)
    requires StmtOK(j, st', i, i + 1, lb, ub)
    ensures Inv(j, st', i + 1, lb, ub)
  {
    var next := i + 1;
    forall r | 0 <= r < |j.prog| ensures StmtOK(j, st', r, next, lb, ub) {
      if r != i {
        assert StmtOK(j, st, r, i, lb, ub);
        StmtFrame(j, st, st', r, i, lb, ub);
      }
    }
  }

  lemma GrowPrefix(old_: Column, v: Column, block: Column, lb: nat, ub: nat)
    requires lb <= ub <= |v| == |old_| && old_[..lb] == v[..lb] && block == v[lb..ub]
    ensures (old_[..lb] + block + old_[lb + |block|..])[..ub] == v[..ub]
    ensures |old_[..lb] + block + old_[lb + |block|..]| == |v|
  {
    assert v[..ub] == v[..lb] + v[lb..ub];
  }

  /** Writing a statement's block, as a temporary or at row `lb` of its column. */
  lemma ColumnStep(j: Job, st: State, i: nat, c: nat, name: string, block: Column, lb: nat, ub: nat)
    requires Inv(j, st, i, lb, ub) && i < |j.prog| && ColumnOut(j.prog[i]) == Some((c, name))
    requires block == Result(j, i)[lb..ub] && |Result(j, i)| == j.nR
    requires c < 4 && j.slots[i][c].isWrite == 1
    ensures if IsTemp(name) then Buf(i, c) in st.temps && |block| <= |st.temps[Buf(i, c)]|
            else Buf(i, c) in st.cols && lb + |block| <= |st.cols[Buf(i, c)]|
    ensures Inv(j, WriteBlock(st, IsTemp(name), Buf(i, c), block, lb), i + 1, lb, ub)
  {
    assert StmtOK(j, st, i, i, lb, ub);
    var st' := WriteBlock(st, IsTemp(name), Buf(i, c), block, lb);
    if IsTemp(name) {
      assert st'.temps[Buf(i, c)][..ub-lb] == block;
    } else {
      GrowPrefix(st.cols[Buf(i, c)], Result(j, i), block, lb, ub);
    }
    InvStep(j, st, st', i, lb, ub);
  }

  lemma PartStep(j: Job, st: State, st': State, i: nat, lb: nat, ub: nat)
    requires Inv(j, st, i, lb, ub) && i < |j.prog| && ColumnOut(j.prog[i]).None? && HistogramOut(j.prog[i]).None?
    requires i < |st.parts| && st' == st.(parts := st.parts[i := Scalar(j, i, ub)])
    ensures Inv(j, st', i + 1, lb, ub)
  {
    assert StmtOK(j, st, i, i, lb, ub);
    InvStep(j, st, st', i, lb, ub);
  }

  lemma HistogramStep(j: Job, st: State, st': State, i: nat, c: nat, lb: nat, ub: nat)
    requires Inv(j, st, i, lb, ub) && i < |j.prog| && HistogramOut(j.prog[i]) == Some(c)
    requires st' == st.(hists := st.hists[Buf(i, c) := Counted(j, i, ub)])
    ensures Inv(j, st', i + 1, lb, ub)
  {
    assert StmtOK(j, st, i, i, lb, ub);
    InvStep(j, st, st', i, lb, ub);
  }

  // ----- one statement on one block

  /** core_f1f2_to_s: per-core partial sums over consecutive chunks, the last one taking the remainder. */
  method CoreF1F2ToS(c: Column, d: Column, numCores: nat) returns (p: Part)
    requires |c| == |d| && numCores > 0
    ensures p == MaskedSum(c, d)
  {
    ChunksFit(|c|, numCores);
    p := SumChunks(c, d, numCores, |c| / numCores);
  }

  method SumChunks(c: Column, d: Column, numCores: nat, blockSize: nat) returns (p: Part)
    requires |c| == |d| && numCores > 0 && Ranks.Scale(blockSize, numCores) <= |c|
    ensures p == MaskedSum(c, d)
  {
    var nR := |c|;
    var lb := 0;
    p := EMPTY_PART;
    assert c[..0] == [];
    for tid := 0 to numCores
      invariant lb == (if tid == numCores then nR else Ranks.Scale(blockSize, tid)) <= nR
      invariant p == MaskedSum(c[..lb], d[..lb])
    {
      Ranks.ScaleMonotone(blockSize, tid + 1, numCores);
      var ub := if tid == numCores - 1 then nR else lb + blockSize;
      p := AddChunk(c, d, lb, ub, p);
      lb := ub;
    }
    assert c[..lb] == c && d[..lb] == d;
  }

  method AddChunk(c: Column, d: Column, lb: nat, ub: nat, p: Part) returns (p': Part)
    requires lb <= ub <= |c| == |d| && p == MaskedSum(c[..lb], d[..lb])
    ensures p' == MaskedSum(c[..ub], d[..ub])
  {
    PrefixGrows(c, lb, ub);
    PrefixGrows(d, lb, ub);
    MaskedSumSplit(c[..lb], d[..lb], c[lb..ub], d[lb..ub], c[..ub], d[..ub]);
    var q := SumRows(c[lb..ub], d[lb..ub]);
    p' := CombineSums(p, q);
  }

  /** nn_f_to_s_sum: the rows of one chunk. */
  method SumRows(c: Column, d: Column) returns (p: Part)
    requires |c| == |d|
    ensures p == MaskedSum(c, d)
  {
    var rslt, cnt := 0, 0;
    for i := 0 to |c|
      invariant rslt == SumWhere(c, d, 0, i) && cnt == Hits(c, 0, i)
    {
      if c[i].val != 0 {
        rslt := rslt + d[i].val;
        cnt := cnt + 1;
      }
    }
    p := Part(false, rslt, cnt, |c|);
  }

  /** vec_f_to_s: the aggregate of the non-null cells of a block and their number. */
  method FToSBlock(agg: Agg, c: Column) returns (p: Part)
    ensures p == Aggregate(agg, c)
  {
    var isSet, numer, cnt := false, 0, 0;
    for i := 0 to |c|
      invariant Part(isSet, numer, cnt, 0) == Aggregate(agg, c[..i])
    {
      assert c[..i+1][..i] == c[..i];
      if c[i].nn {
        numer := Better(agg, isSet, numer, c[i].val);
        isSet := true;
        cnt := cnt + 1;
      }
    }
    assert c[..|c|] == c;
    p := Part(isSet, numer, cnt, 0);
  }

  /** The numerator after one more value (compound.c:1085-1103). */
  method Better(agg: Agg, isSet: bool, numer: int, x: int) returns (r: int)
    ensures r == if isSet then Join(agg, numer, x) else x
  {
    if !isSet { return x; }
    match agg {
      case Min => r := if numer < x then numer else x;
      case Max => r := if numer > x then numer else x;
      case Sum => r := numer + x;
    }
  }

  /** The block's result joins the running one (compound.c:1078-1103). */
  method CombineBlocks(agg: Agg, p: Part, q: Part) returns (r: Part)
    ensures r == CombineAgg(agg, p, q)
  {
    r := p;
    if q.p1 > 0 {
      var numer := Better(agg, p.isSet, p.p0, q.p0);
      r := Part(true, numer, p.p1 + q.p1, p.p2);
    }
  }

  method CombineSums(p: Part, q: Part) returns (r: Part)
    ensures r == CombineSum(p, q)
  {
    r := Part(p.isSet, p.p0 + q.p0, p.p1 + q.p1, p.p2 + q.p2);
  }

  /** count and countf: a block's rows are added to the histogram. */
  method CountBlock(h0: seq<int>, keys: Column, weights: Option<Column>, mask: Option<Column>) returns (h: seq<int>)
    requires weights.Some? ==> |weights.value| == |keys|
    requires mask.Some? ==> |mask.value| == |keys|
    ensures h == Histogram(h0, keys, weights, mask)
  {
    h := h0;
    TakeAllOption(weights, |keys|);
    TakeAllOption(mask, |keys|);
    for i := 0 to |keys|
      invariant |h| == |h0| && h == Histogram(h0, keys[..i], Take(weights, i), Take(mask, i))
    {
      CountPrefix(keys, weights, mask, i, i + 1);
      if mask.None? || mask.value[i].val != 0 {
        var key, w := keys[i].val, if weights.Some? then weights.value[i].val else 1;
        if 0 <= key < |h| { h := h[key := h[key] + w]; }
      }
    }
    assert keys[..|keys|] == keys;
  }

  lemma CountPrefix(keys: Column, weights: Option<Column>, mask: Option<Column>, i: nat, next: nat)
    requires weights.Some? ==> |weights.value| == |keys|
    requires mask.Some? ==> |mask.value| == |keys|
    requires next == i + 1 <= |keys|
    ensures keys[..next][..i] == keys[..i]
    ensures Take(Take(weights, next), i) == Take(weights, i) && Take(Take(mask, next), i) == Take(mask, i)
  {
    if weights.Some? { assert weights.value[..next][..i] == weights.value[..i]; }
    if mask.Some? { assert mask.value[..next][..i] == mask.value[..i]; }
  }

  lemma ChunksFit(n: nat, cores: nat)
    requires cores > 0
    ensures Ranks.Scale(n / cores, cores) <= n
  {
    Ranks.ScaleIsProduct(n / cores, cores);
    assert n == (n / cores) * cores + n % cores;
  }

  lemma PrefixGrows(v: Column, lb: nat, ub: nat)
    requires lb <= ub <= |v|
    ensures v[..ub] == v[..lb] + v[lb..ub]
  {}

  /** The block's scalar joined to the running one is the running one of more rows. */
  lemma ScalarGrows(j: Job, i: nat, lb: nat, ub: nat)
    requires i < |j.prog| && lb <= ub <= j.nR
    ensures j.prog[i].FToS? ==>
      Scalar(j, i, ub) == CombineAgg(j.prog[i].agg, Scalar(j, i, lb), Aggregate(j.prog[i].agg, SrcVal(j, i, 0)[lb..ub]))
    ensures j.prog[i].F1F2ToS? ==>
      Scalar(j, i, ub) == CombineSum(Scalar(j, i, lb), MaskedSum(SrcVal(j, i, 0)[lb..ub], SrcVal(j, i, 1)[lb..ub]))
  {
    var v, w := SrcVal(j, i, 0), SrcVal(j, i, 1);
    PrefixGrows(v, lb, ub);
    PrefixGrows(w, lb, ub);
    if j.prog[i].FToS? {
      AggregateSplit(j.prog[i].agg, v[..lb], v[lb..ub]);
    } else if j.prog[i].F1F2ToS? {
      MaskedSumSplit(v[..lb], w[..lb], v[lb..ub], w[lb..ub], v[..ub], w[..ub]);
    }
  }

  /** Counting one more block; before the first one the histogram is cleared. */
  lemma CountedGrows(j: Job, i: nat, lb: nat, ub: nat)
    requires i < |j.prog| && lb <= ub <= j.nR
    ensures j.prog[i].Count? ==>
      Counted(j, i, ub) == Histogram(Counted(j, i, lb), SrcVal(j, i, 0)[lb..ub], None,
          Slice(MaskVal(j, i, 1, j.prog[i].cfld), lb, ub))
    ensures j.prog[i].CountF? ==>
      Counted(j, i, ub) == Histogram(Counted(j, i, lb), SrcVal(j, i, 1)[lb..ub], Some(SrcVal(j, i, 0)[lb..ub]),
                                     Slice(MaskVal(j, i, 2, j.prog[i].cfld), lb, ub))
  {
    if j.prog[i].Count? {
      HistogramSplit(ZeroCounts(TableRows(j.sizes, j.prog[i].otbl)), SrcVal(j, i, 0), None,
          MaskVal(j, i, 1, j.prog[i].cfld), lb, ub);
    } else if j.prog[i].CountF? {
      HistogramSplit(ZeroCounts(TableRows(j.sizes, j.prog[i].otbl)), SrcVal(j, i, 1), Some(SrcVal(j, i, 0)),
                     MaskVal(j, i, 2, j.prog[i].cfld), lb, ub);
    }
  }

  lemma CountedNothing(j: Job, i: nat)
    requires i < |j.prog| && HistogramOut(j.prog[i]).Some?
    ensures Counted(j, i, 0) == ZeroCounts(TableRows(j.sizes, j.prog[i].otbl))
  {}

  lemma UseAt(j: Job, i: nat, m: nat)
    requires i < |j.prog| && m < |Uses(j.prog[i], j.tbl)|
    ensures j.Us()[i] == Uses(j.prog[i], j.tbl)
  {}

  /** The statements that write a column. */
  method ExecColumn(j: Job, st: State, i: nat, lb: nat, ub: nat) returns (st': State)
    requires j.Accepted() && NoHistogramReads(j) && Inv(j, st, i, lb, ub)
    requires i < |j.prog| && ColumnOut(j.prog[i]).Some?
    ensures Inv(j, st', i + 1, lb, ub)
  {
    ColumnEquation(j, i);
    UseAt(j, i, 0);
    BlockRight(j, st, i, 0, lb, ub);
    var (c, name) := ColumnOut(j.prog[i]).value;
    var f1 := ReadBlock(j.slots, st, i, 0, lb, ub);
    var block;
    match j.prog[i] {
      case F1OpF2(_, spec, _) =>
        MapUnarySlice(j.kernels, spec, SrcVal(j, i, 0), lb, ub);
        block := MapUnary(j.kernels, spec, f1);
      case F1S1OpF2(_, sc, spec, _) =>
        MapScalarSlice(j.kernels, sc, spec, SrcVal(j, i, 0), lb, ub);
        block := MapScalar(j.kernels, sc, spec, f1);
      case F1F2OpF3(_, _, spec, _) =>
        UseAt(j, i, 1);
        BlockRight(j, st, i, 1, lb, ub);
        MapBinarySlice(j.kernels, spec, SrcVal(j, i, 0), SrcVal(j, i, 1), lb, ub);
        block := MapBinary(j.kernels, spec, f1, ReadBlock(j.slots, st, i, 1, lb, ub));
    }
    ColumnStep(j, st, i, c, name, block, lb, ub);
    st' := WriteBlock(st, j.slots[i][c].isTemp == 1, Buf(i, c), block, lb);
  }

  /** The statements that report a scalar. */
  method ExecScalar(j: Job, st: State, i: nat, lb: nat, ub: nat, numCores: nat) returns (st': State)
    requires j.Accepted() && NoHistogramReads(j) && Inv(j, st, i, lb, ub) && numCores > 0
    requires i < |j.prog| && (j.prog[i].FToS? || j.prog[i].F1F2ToS?)
    ensures Inv(j, st', i + 1, lb, ub)
  {
    UseAt(j, i, 0);
    BlockRight(j, st, i, 0, lb, ub);
    ScalarGrows(j, i, lb, ub);
    assert StmtOK(j, st, i, i, lb, ub);
    var f1 := ReadBlock(j.slots, st, i, 0, lb, ub);
    var part;
    if j.prog[i].FToS? {
      var p := FToSBlock(j.prog[i].agg, f1);
      part := CombineBlocks(j.prog[i].agg, st.parts[i], p);
    } else {
      UseAt(j, i, 1);
      BlockRight(j, st, i, 1, lb, ub);
      var p := CoreF1F2ToS(f1, ReadBlock(j.slots, st, i, 1, lb, ub), numCores);
      part := CombineSums(st.parts[i], p);
    }
    st' := st.(parts := st.parts[i := part]);
    PartStep(j, st, st', i, lb, ub);
  }

  /** The mask field of a count, if it has one. */
  method ReadMask(j: Job, st: State, i: nat, c: nat, cfld: string, lb: nat, ub: nat) returns (mask: Option<Column>)
    requires j.Accepted() && NoHistogramReads(j) && Inv(j, st, i, lb, ub) && i < |j.prog|
    requires cfld != "" ==> c < |j.Us()[i]| && j.Us()[i][c] == Use(c, cfld, false, j.tbl)
    ensures mask == Slice(MaskVal(j, i, c, cfld), lb, ub)
  {
    mask := None;
    if cfld != "" {
      BlockRight(j, st, i, c, lb, ub);
      mask := Some(ReadBlock(j.slots, st, i, c, lb, ub));
    }
  }

  /** The histogram so far; cleared when the first block starts. */
  method StartHistogram(j: Job, st: State, i: nat, c: nat, lb: nat, ub: nat) returns (h: seq<int>)
    requires Inv(j, st, i, lb, ub) && i < |j.prog| && HistogramOut(j.prog[i]) == Some(c)
    ensures h == Counted(j, i, lb)
  {
    assert StmtOK(j, st, i, i, lb, ub);
    CountedNothing(j, i);
    h := if lb == 0 then ZeroCounts(TableRows(j.sizes, j.prog[i].otbl)) else st.hists[Buf(i, c)];
  }

  method ExecCount(j: Job, st: State, i: nat, lb: nat, ub: nat) returns (st': State)
    requires j.Accepted() && NoHistogramReads(j) && Inv(j, st, i, lb, ub) && i < |j.prog| && j.prog[i].Count?
    ensures Inv(j, st', i + 1, lb, ub)
  {
    var h := StartHistogram(j, st, i, 2, lb, ub);
    UseAt(j, i, 0);
    BlockRight(j, st, i, 0, lb, ub);
    var mask := ReadMask(j, st, i, 1, j.prog[i].cfld, lb, ub);
    CountedGrows(j, i, lb, ub);
    h := CountBlock(h, ReadBlock(j.slots, st, i, 0, lb, ub), None, mask);
    st' := st.(hists := st.hists[Buf(i, 2) := h]);
    HistogramStep(j, st, st', i, 2, lb, ub);
  }

  method ExecCountF(j: Job, st: State, i: nat, lb: nat, ub: nat) returns (st': State)
    requires j.Accepted() && NoHistogramReads(j) && Inv(j, st, i, lb, ub) && i < |j.prog| && j.prog[i].CountF?
    ensures Inv(j, st', i + 1, lb, ub)
  {
    var h := StartHistogram(j, st, i, 3, lb, ub);
    UseAt(j, i, 0);
    BlockRight(j, st, i, 0, lb, ub);
    BlockRight(j, st, i, 1, lb, ub);
    var mask := ReadMask(j, st, i, 2, j.prog[i].cfld, lb, ub);
    CountedGrows(j, i, lb, ub);
    var f1, f2 := ReadBlock(j.slots, st, i, 0, lb, ub), ReadBlock(j.slots, st, i, 1, lb, ub);
    h := CountBlock(h, f2, Some(f1), mask);
    st' := st.(hists := st.hists[Buf(i, 3) := h]);
    HistogramStep(j, st, st', i, 3, lb, ub);
  }

  // ----- all statements on all blocks

  function NumBlocks(nR: nat): (n: nat)
    ensures n >= 1
  {
    if nR / BLOCK == 0 then 1 else nR / BLOCK
  }

  function BlockEnd(nR: nat, b: nat): nat {
    if b + 1 == NumBlocks(nR) then nR else BLOCK * b + BLOCK
  }

  /** The blocks are consecutive, cover all rows, and none exceeds the temporaries' 2 * BLOCK rows. */
  lemma BlocksPartition(nR: nat, b: nat)
    requires nR > 0 && b < NumBlocks(nR)
    ensures BLOCK * b < BlockEnd(nR, b) <= nR && BlockEnd(nR, b) - BLOCK * b < 2 * BLOCK
    ensures b + 1 < NumBlocks(nR) ==> BlockEnd(nR, b) == BLOCK * (b + 1)
    ensures b + 1 == NumBlocks(nR) ==> BlockEnd(nR, b) == nR
  {}

  /** The int product block_size * b is the row number it stands for exactly on tables below 2049 blocks. */
  lemma BlockStartExact(nR: nat)
    ensures (forall b :: 0 <= b < NumBlocks(nR) ==> Int32(BLOCK * b) == BLOCK * b) <==> nR < 2049 * BLOCK
  {
    if nR >= 2049 * BLOCK {
      assert 0 <= 2048 < NumBlocks(nR) && Int32(BLOCK * 2048) != BLOCK * 2048;
    }
  }

  /** A count whose output has a temporary's name gets a temporary's buffer, so its table must fit in one. */
  predicate HistogramsFit(j: Job) {
    forall r :: 0 <= r < |j.prog| && HistogramOut(j.prog[r]).Some? && IsTemp(HistogramName(j.prog[r]).1)
      ==> TableRows(j.sizes, j.prog[r].otbl) <= 2 * BLOCK
  }

  lemma BlockStart(nR: nat, b: nat)
    requires nR < 2049 * BLOCK && b < NumBlocks(nR)
    ensures Int32(BLOCK * b) == BLOCK * b
  {
    BlockStartExact(nR);
  }

  /** What the program's storage looks like before the run. */
  ghost predicate Allocated(j: Job, st: State) {
    && HistogramsFit(j)
    && InputsOK(j, st) && |st.parts| == |j.prog| && (forall r :: 0 <= r < |j.prog| ==> st.parts[r] == EMPTY_PART)
    && (forall r :: 0 <= r < |j.prog| && ColumnOut(j.prog[r]).Some? ==> RoomFor(j, st, r))
    && (forall r :: 0 <= r < |j.prog| && HistogramOut(j.prog[r]).Some? ==>
          var b := Buf(r, HistogramOut(j.prog[r]).value);
          b in st.hists && |st.hists[b]| == TableRows(j.sizes, j.prog[r].otbl))
  }

  ghost predicate RoomFor(j: Job, st: State, r: nat)
    requires r < |j.prog| && ColumnOut(j.prog[r]).Some?
  {
    var (c, name) := ColumnOut(j.prog[r]).value;
    if IsTemp(name) then Buf(r, c) in st.temps && |st.temps[Buf(r, c)]| == 2 * BLOCK
    else Buf(r, c) in st.cols && |st.cols[Buf(r, c)]| == j.nR
  }

  lemma InvStart(j: Job, st: State, ub: nat)
    requires Allocated(j, st) && ub <= j.nR && ub <= 2 * BLOCK
    ensures Inv(j, st, 0, 0, ub)
  {
    forall r | 0 <= r < |j.prog| ensures StmtOK(j, st, r, 0, 0, ub) {
      if ColumnOut(j.prog[r]).Some? {
        assert RoomFor(j, st, r);
        assert |Result(j, r)| == j.nR;
      }
    }
  }

  lemma InvNextBlock(j: Job, st: State, lb: nat, ub: nat, ub': nat)
    requires Inv(j, st, |j.prog|, lb, ub) && ub <= ub' <= j.nR && ub' - ub <= 2 * BLOCK
    ensures Inv(j, st, 0, ub, ub')
  {
    forall r | 0 <= r < |j.prog| ensures StmtOK(j, st, r, 0, ub, ub') {
      assert StmtOK(j, st, r, |j.prog|, lb, ub);
    }
  }

  /** One block: every statement in turn. */
  method ExecBlock(j: Job, st: State, lb: nat, ub: nat, numCores: nat) returns (st': State)
    requires j.Accepted() && NoHistogramReads(j) && Inv(j, st, 0, lb, ub) && numCores > 0
    ensures Inv(j, st', |j.prog|, lb, ub)
  {
    st' := st;
    for i := 0 to |j.prog|
      invariant Inv(j, st', i, lb, ub)
    {
      match j.prog[i] {
        case F1OpF2(_, _, _) => st' := ExecColumn(j, st', i, lb, ub);
        case F1S1OpF2(_, _, _, _) => st' := ExecColumn(j, st', i, lb, ub);
        case F1F2OpF3(_, _, _, _) => st' := ExecColumn(j, st', i, lb, ub);
        case FToS(_, _, _) => st' := ExecScalar(j, st', i, lb, ub, numCores);
        case F1F2ToS(_, _, _) => st' := ExecScalar(j, st', i, lb, ub, numCores);
        case Count(_, _, _, _) => st' := ExecCount(j, st', i, lb, ub);
        case CountF(_, _, _, _, _) => st' := ExecCountF(j, st', i, lb, ub);
      }
    }
  }

  /** Everything the run leaves behind is what the whole-table run gives. */
  ghost predicate SameAsWhole(j: Job, st: State) {
    && |st.parts| == |j.prog|
    && (forall r :: 0 <= r < |j.prog| && ColumnOut(j.prog[r]).Some? ==>
          var (c, name) := ColumnOut(j.prog[r]).value;
          !IsTemp(name) ==> Buf(r, c) in st.cols && st.cols[Buf(r, c)] == Col(j.After(|j.prog|), name, j.nR))
    && (forall r :: 0 <= r < |j.prog| && HistogramOut(j.prog[r]).Some? ==> HistogramSame(j, st, r))
    && (forall r :: 0 <= r < |j.prog| && (j.prog[r].FToS? || j.prog[r].F1F2ToS?) ==>
          r in j.After(|j.prog|).scalars && st.parts[r] == j.After(|j.prog|).scalars[r])
  }

  /**
   The histogram of statement `r` is the one that the whole-table run has
   right after that statement, and at the end if no later statement writes it.
   */
  ghost predicate HistogramSame(j: Job, st: State, r: nat)
    requires r < |j.prog| && HistogramOut(j.prog[r]).Some?
  {
    var b, key := Buf(r, HistogramOut(j.prog[r]).value), HistogramName(j.prog[r]);
    && b in st.hists
    && key in j.After(r + 1).hists && st.hists[b] == j.After(r + 1).hists[key]
    && (LastWriter(j.prog, r) ==> key in j.After(|j.prog|).hists && st.hists[b] == j.After(|j.prog|).hists[key])
  }

  /** No later statement writes the histogram of statement `r`. */
  predicate LastWriter(prog: seq<Stmt>, r: nat)
    requires r < |prog| && HistogramOut(prog[r]).Some?
  {
    forall q :: r < q < |prog| && HistogramOut(prog[q]).Some? ==> HistogramName(prog[q]) != HistogramName(prog[r])
  }

  /** A statement keeps the histograms that it does not write. */
  lemma HistogramKept(j: Job, key: (string, string), m: nat, n: nat)
    requires n == m + 1 <= |j.prog| && (HistogramOut(j.prog[m]).Some? ==> HistogramName(j.prog[m]) != key)
    ensures key in j.After(n).hists <==> key in j.After(m).hists
    ensures key in j.After(m).hists ==> j.After(n).hists[key] == j.After(m).hists[key]
  {
    assert j.After(n) == StepWhole(j.kernels, j.prog[m], m, j.After(m), j.nR, j.sizes);
  }

  /** The last writer of a histogram decides its final value. */
  lemma HistogramFinal(j: Job, r: nat, n: nat)
    requires r < n <= |j.prog| && HistogramOut(j.prog[r]).Some? && LastWriter(j.prog, r)
    requires HistogramName(j.prog[r]) in j.After(r + 1).hists
    ensures HistogramName(j.prog[r]) in j.After(n).hists
    ensures j.After(n).hists[HistogramName(j.prog[r])] == j.After(r + 1).hists[HistogramName(j.prog[r])]
  {
    var key := HistogramName(j.prog[r]);
    var s := seq(|j.prog| + 1, m requires 0 <= m <= |j.prog| => HistogramAt(j, key, m));
    forall m | r + 1 <= m < n ensures s[m] == s[m+1] {
      HistogramKept(j, key, m, m + 1);
    }
    Constant(s, r + 1, n);
  }

  ghost function HistogramAt(j: Job, key: (string, string), n: nat): Option<seq<int>>
    requires n <= |j.prog|
  {
    if key in j.After(n).hists then Some(j.After(n).hists[key]) else None
  }

  /** Every histogram of the final environment has a last writer. */
  lemma {:induction false} HistogramWritten(j: Job, key: (string, string), n: nat) returns (r: nat)
    requires n <= |j.prog| && key in j.After(n).hists
    ensures r < n && HistogramOut(j.prog[r]).Some? && HistogramName(j.prog[r]) == key
    ensures forall q :: r < q < n && HistogramOut(j.prog[q]).Some? ==> HistogramName(j.prog[q]) != key
  {
    var m := n - 1;
    if HistogramOut(j.prog[m]).Some? && HistogramName(j.prog[m]) == key {
      r := m;
    } else {
      HistogramKept(j, key, m, n);
      r := HistogramWritten(j, key, m);
    }
  }

  function HistogramName(s: Stmt): (string, string)
    requires HistogramOut(s).Some?
  {
    match s
    case Count(_, _, otbl, f3) => (otbl, f3)
    case CountF(_, _, _, otbl, f4) => (otbl, f4)
  }

  lemma {:induction false} ScalarStable(j: Job, r: nat, n: nat)
    requires r < n <= |j.prog| && (j.prog[r].FToS? || j.prog[r].F1F2ToS?)
    ensures r in j.After(n).scalars && j.After(n).scalars[r] == j.After(r + 1).scalars[r]
  {
    if r + 1 < n {
      ScalarStable(j, r, n - 1);
      ScalarKept(j, r, n - 1, n);
    } else {
      ScalarSet(j, r, n);
    }
  }

  lemma ScalarKept(j: Job, r: nat, m: nat, n: nat)
    requires r < m < |j.prog| && n == m + 1 && r in j.After(m).scalars
    ensures r in j.After(n).scalars && j.After(n).scalars[r] == j.After(m).scalars[r]
  {
    var e := j.After(m);
    assert j.After(n) == StepWhole(j.kernels, j.prog[m], m, e, j.nR, j.sizes);
  }

  lemma ScalarSet(j: Job, r: nat, n: nat)
    requires r < |j.prog| && n == r + 1 && (j.prog[r].FToS? || j.prog[r].F1F2ToS?)
    ensures r in j.After(n).scalars
  {
    assert j.After(n) == StepWhole(j.kernels, j.prog[r], r, j.After(r), j.nR, j.sizes);
  }

  lemma ColumnMatches(j: Job, st: State, r: nat, lb: nat)
    requires j.Accepted() && NoHistogramReads(j) && Inv(j, st, |j.prog|, lb, j.nR) && r < |j.prog|
    requires ColumnOut(j.prog[r]).Some?
    ensures var (c, name) := ColumnOut(j.prog[r]).value;
      !IsTemp(name) ==> Buf(r, c) in st.cols && st.cols[Buf(r, c)] == Col(j.After(|j.prog|), name, j.nR)
  {
    var (c, name) := ColumnOut(j.prog[r]).value;
    assert StmtOK(j, st, r, |j.prog|, lb, j.nR);
    ColumnEquation(j, r);
    ColumnFinal(j, r, name);
    if !IsTemp(name) {
      assert st.cols[Buf(r, c)] == st.cols[Buf(r, c)][..j.nR];
    }
  }

  lemma HistogramMatches(j: Job, st: State, r: nat, lb: nat)
    requires j.Accepted() && NoHistogramReads(j) && Inv(j, st, |j.prog|, lb, j.nR) && r < |j.prog|
    requires HistogramOut(j.prog[r]).Some?
    ensures Buf(r, HistogramOut(j.prog[r]).value) in st.hists
    ensures HistogramName(j.prog[r]) in j.After(r + 1).hists
    ensures st.hists[Buf(r, HistogramOut(j.prog[r]).value)] == j.After(r + 1).hists[HistogramName(j.prog[r])]
  {
    assert StmtOK(j, st, r, |j.prog|, lb, j.nR);
    Sources(j, r);
    TakeAll(SrcVal(j, r, 0), j.nR);
    TakeAll(SrcVal(j, r, 1), j.nR);
    TakeAllOption(MaskVal(j, r, 1, j.prog[r].cfld), j.nR);
    TakeAllOption(MaskVal(j, r, 2, j.prog[r].cfld), j.nR);
  }

  lemma TakeAll(c: Column, n: nat)
    requires |c| == n
    ensures c[..n] == c && Take(Some(c), n) == Some(c)
  {}

  lemma TakeAllOption(c: Option<Column>, n: nat)
    requires c.Some? ==> |c.value| == n
    ensures Take(c, n) == c
  {
    if c.Some? { TakeAll(c.value, n); }
  }

  lemma ScalarMatches(j: Job, st: State, r: nat, lb: nat)
    requires j.Accepted() && NoHistogramReads(j) && Inv(j, st, |j.prog|, lb, j.nR)
    requires r < |j.prog| && (j.prog[r].FToS? || j.prog[r].F1F2ToS?)
    ensures |st.parts| == |j.prog| && r in j.After(|j.prog|).scalars && st.parts[r] == j.After(|j.prog|).scalars[r]
  {
    assert StmtOK(j, st, r, |j.prog|, lb, j.nR);
    Sources(j, r);
    ScalarStable(j, r, |j.prog|);
    TakeAll(SrcVal(j, r, 0), j.nR);
    TakeAll(SrcVal(j, r, 1), j.nR);
  }

  lemma AllMatch(j: Job, st: State, lb: nat)
    requires j.Accepted() && NoHistogramReads(j) && |j.prog| > 0 && Inv(j, st, |j.prog|, lb, j.nR)
    ensures SameAsWhole(j, st)
  {
    assert StmtOK(j, st, 0, |j.prog|, lb, j.nR);
    forall r | 0 <= r < |j.prog| && ColumnOut(j.prog[r]).Some?
      ensures var (c, name) := ColumnOut(j.prog[r]).value;
        !IsTemp(name) ==> Buf(r, c) in st.cols && st.cols[Buf(r, c)] == Col(j.After(|j.prog|), name, j.nR)
    {
      ColumnMatches(j, st, r, lb);
    }
    forall r | 0 <= r < |j.prog| && HistogramOut(j.prog[r]).Some? ensures HistogramSame(j, st, r) {
      HistogramMatches(j, st, r, lb);
      if LastWriter(j.prog, r) { HistogramFinal(j, r, |j.prog|); }
    }
    forall r | 0 <= r < |j.prog| && (j.prog[r].FToS? || j.prog[r].F1F2ToS?)
      ensures r in j.After(|j.prog|).scalars && st.parts[r] == j.After(|j.prog|).scalars[r]
    {
      ScalarMatches(j, st, r, lb);
    }
  }

  /** exec_comp_expr: blocked, fused execution gives the whole-table results. */
  method ExecCompExpr(j: Job, st0: State, numCores: nat) returns (st: State)
    requires j.Accepted() && NoHistogramReads(j) && Allocated(j, st0) && numCores > 0
    requires j.nR < 2049 * BLOCK
    ensures SameAsWhole(j, st)
  {
    st := st0;
    var numBlocks := NumBlocks(j.nR);
    BlocksPartition(j.nR, 0);
    InvStart(j, st, BlockEnd(j.nR, 0));
    ghost var last: nat := 0;
    for b := 0 to numBlocks
      invariant Blocked(j, st, b, last)
    {
      var next := b + 1;
      st, last := ExecNth(j, st, b, next, last, numCores);
    }
    AllMatch(j, st, last);
  }

  /** Before block `b`; after the last one everything up to the last row is done. */
  ghost predicate Blocked(j: Job, st: State, b: nat, last: nat) {
    if b < NumBlocks(j.nR) then Inv(j, st, 0, BLOCK * b, BlockEnd(j.nR, b)) else Inv(j, st, |j.prog|, last, j.nR)
  }

  method ExecNth(j: Job, st0: State, b: nat, next: nat, ghost last0: nat, numCores: nat)
    returns (st: State, ghost last: nat)
    requires j.Accepted() && NoHistogramReads(j) && numCores > 0 && j.nR < 2049 * BLOCK
    requires b < NumBlocks(j.nR) && next == b + 1 && Blocked(j, st0, b, last0)
    ensures Blocked(j, st, next, last)
  {
    BlocksPartition(j.nR, b);
    BlockStart(j.nR, b);
    var lb := Int32(BLOCK * b);
    var ub := if next == NumBlocks(j.nR) then j.nR else lb + BLOCK;
    st := ExecBlock(j, st0, lb, ub, numCores);
    last := lb;
    BlockedNext(j, st, next, lb, ub);
  }

  lemma BlockedNext(j: Job, st: State, next: nat, lb: nat, ub: nat)
    requires j.nR > 0 && next <= NumBlocks(j.nR) && Inv(j, st, |j.prog|, lb, ub)
    requires ub == if next == NumBlocks(j.nR) then j.nR else BLOCK * next
    ensures Blocked(j, st, next, lb)
  {
    if next < NumBlocks(j.nR) {
      BlocksPartition(j.nR, next);
      InvNextBlock(j, st, lb, ub, BlockEnd(j.nR, next));
    }
  }

  // ----- the whole command

  function AllBufs(n: nat): (s: set<Buf>)
    ensures forall b: Buf :: b in s <==> b.row < n && b.col < 4
  {
    set r: nat, c: nat | 0 <= r < n && 0 <= c < 4 :: Buf(r, c)
  }

  /** The malloced temporaries. */
  function PrepareTemps(slots: CompoundCheck.Rows): (m: map<Buf, Column>)
    requires forall i :: 0 <= i < |slots| ==> |slots[i]| == 4
    ensures forall b: Buf | b.row < |slots| && b.col < 4 && slots[b.row][b.col].isTemp == 1 &&
        slots[b.row][b.col].isWrite == 1 ::
      b in m && |m[b]| == 2 * BLOCK
  {
    map b | b in AllBufs(|slots|) && slots[b.row][b.col].isTemp == 1 && slots[b.row][b.col].isWrite == 1
      :: seq(2 * BLOCK, _ => Cell(0, false))
  }

  /** The mapped input files and the new output files. */
  function PrepareCols(slots: CompoundCheck.Rows, table: map<string, Column>, nR: nat): (m: map<Buf, Column>)
    requires forall i :: 0 <= i < |slots| ==> |slots[i]| == 4
    ensures forall b: Buf | b.row < |slots| && b.col < 4 && slots[b.row][b.col].isTemp == 0 &&
        slots[b.row][b.col].isFirst == 1 ::
      b in m && |m[b]| == nR
      && (IsInput(slots[b.row][b.col]) ==> m[b] == Col(Env(table, map[], map[]), slots[b.row][b.col].name, nR))
  {
    map b | b in AllBufs(|slots|) && slots[b.row][b.col].isTemp == 0 && slots[b.row][b.col].isFirst == 1
      :: if IsInput(slots[b.row][b.col]) then Col(Env(table, map[], map[]), slots[b.row][b.col].name, nR)
         else seq(nR, _ => Cell(0, false))
  }

  /** The counters of other tables. */
  function PrepareHists(prog: seq<Stmt>, sizes: map<string, nat>): (m: map<Buf, seq<int>>)
    ensures forall b: Buf | b.row < |prog| && b.col < 4 && HistogramOut(prog[b.row]) == Some(b.col) ::
      b in m && |m[b]| == TableRows(sizes, prog[b.row].otbl)
  {
    map b | b in AllBufs(|prog|) && HistogramOut(prog[b.row]) == Some(b.col) ::
      ZeroCounts(TableRows(sizes, prog[b.row].otbl))
  }

  /** Storage as proc_fld hands it out. */
  function Prepare(j: Job): State
    requires forall i :: 0 <= i < |j.slots| ==> |j.slots[i]| == 4
  {
    State(PrepareTemps(j.slots), PrepareCols(j.slots, j.table, j.nR), PrepareHists(j.prog, j.sizes),
        seq(|j.prog|, _ => EMPTY_PART))
  }

  lemma Prepared(j: Job)
    requires j.Accepted() && HistogramsFit(j)
    ensures Shaped(j.slots) && Allocated(j, Prepare(j))
  {
    AcceptedRows(j);
    var st := Prepare(j);
    PreparedInputs(j);
    forall r | 0 <= r < |j.prog| && ColumnOut(j.prog[r]).Some? ensures RoomFor(j, st, r) {
      OutputSlot(j, r);
      assert Buf(r, ColumnOut(j.prog[r]).value.0).row == r;
    }
    forall r | 0 <= r < |j.prog| && HistogramOut(j.prog[r]).Some?
      ensures var b := Buf(r, HistogramOut(j.prog[r]).value);
        b in st.hists && |st.hists[b]| == TableRows(j.sizes, j.prog[r].otbl)
    {
      assert Buf(r, HistogramOut(j.prog[r]).value).row == r;
    }
  }

  lemma PreparedInputs(j: Job)
    requires j.Accepted()
    ensures Shaped(j.slots) && InputsOK(j, Prepare(j))
  {
    AcceptedRows(j);
    var st := Prepare(j);
    forall r: nat, c: nat | r < |j.prog| && c < 4 && IsInput(j.slots[r][c])
      ensures Buf(r, c) in st.cols && st.cols[Buf(r, c)] == BufValue(j, Buf(r, c))
    {
      InputSlot(j, r, c);
      assert Buf(r, c).row == r;
    }
  }

  /** Inputs are never temporaries. */
  lemma InputSlot(j: Job, r: nat, c: nat)
    requires j.Accepted() && r < |j.prog| && c < 4
    ensures Shaped(j.slots) && |j.slots| == |j.prog| && (IsInput(j.slots[r][c]) ==> j.slots[r][c].isTemp == 0)
  {
    AcceptedRows(j);
    if IsInput(j.slots[r][c]) {
      var m := SlotOfUse(j.Us(), j.slots, j.table.Keys, r, c);
    }
  }

  lemma OutputSlot(j: Job, r: nat)
    requires j.Accepted() && r < |j.prog| && ColumnOut(j.prog[r]).Some?
    ensures var (c, name) := ColumnOut(j.prog[r]).value;
      Shaped(j.slots) && |j.slots| == |j.prog| && c < 3 && j.slots[r][c].isWrite == 1 && j.slots[r][c].isFirst == 1
      && j.slots[r][c].isTemp == TempFlag(name)
  {
    AcceptedRows(j);
    var us := j.Us()[r];
    assert us == Uses(j.prog[r], j.tbl);
    assert RowOK(j.slots, r, us, |us|, j.table.Keys);
    assert UseOK(j.slots, r, us[|us|-1], j.table.Keys);
  }
}
