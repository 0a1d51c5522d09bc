/**
 The outcome of a compound program in terms of the cells of the table alone.
 */
module CompoundResults {
  import opened CompoundSpec
  import opened CompoundLaws
  import opened CompoundCheck
  import opened CompoundMeaning
  import opened CompoundExec
  import opened CompoundAccepts

  // ----- every column that is read is there

  /** The columns of the table have an entry for every row. */
  ghost predicate WellSized(j: Job) {
    forall f :: f in j.table ==> |j.table[f]| == j.nR
  }

  lemma {:induction false} AllSized(j: Job, n: nat)
    requires WellSized(j) && n <= |j.prog|
    ensures forall name :: name in j.After(n).cols ==> |j.After(n).cols[name]| == j.nR
  {
    if n > 0 {
      AllSized(j, n - 1);
      StepSized(j, n - 1, n);
    }
  }

  lemma StepSized(j: Job, m: nat, n: nat)
    requires n == m + 1 <= |j.prog|
    requires forall name :: name in j.After(m).cols ==> |j.After(m).cols[name]| == j.nR
    ensures forall name :: name in j.After(n).cols ==> |j.After(n).cols[name]| == j.nR
  {
    assert j.After(n) == StepWhole(j.kernels, j.prog[m], m, j.After(m), j.nR, j.sizes);
  }

  lemma StepNames(j: Job, m: nat, n: nat, name: string)
    requires n == m + 1 <= |j.prog|
    ensures name in j.After(n).cols <==> name in j.After(m).cols || WritesColumn(j.prog[m], name)
  {
    assert j.After(n) == StepWhole(j.kernels, j.prog[m], m, j.After(m), j.nR, j.sizes);
  }

  lemma {:induction false} NamesStay(j: Job, m: nat, n: nat, name: string)
    requires m <= n <= |j.prog| && name in j.After(m).cols
    ensures name in j.After(n).cols
  {
    if m < n {
      NamesStay(j, m, n - 1, name);
      StepNames(j, n - 1, n, name);
    }
  }

  /** A field that is read is in the table or was written before. */
  lemma ReadPresent(j: Job, i: nat, m: nat)
    requires j.Accepted() && NoHistogramReads(j) && WellSized(j)
    requires i < |j.prog| && m < |j.Us()[i]| && !j.Us()[i][m].write
    ensures Has(j.After(i).cols, j.Us()[i][m].name, j.nR)
  {
    AcceptedRows(j);
    var u := j.Us()[i][m];
    ReadAfterWrite(j.Us(), j.slots, j.table.Keys, i, m);
    AllSized(j, i);
    var s := j.slots[i][u.col];
    if s.isFirst == 1 {
      NamesStay(j, 0, i, u.name);
    } else {
      var x := s.X.value;
      WriterKind(j, x.row, x.col, u.name);
      StepNames(j, x.row, x.row + 1, u.name);
      NamesStay(j, x.row + 1, i, u.name);
    }
  }

  lemma InputUse(s: Stmt, tbl: string, name: string) returns (m: nat)
    requires name in Inputs(s)
    ensures m < |Uses(s, tbl)| && !Uses(s, tbl)[m].write && Uses(s, tbl)[m].name == name
  {
    var us := Uses(s, tbl);
    var k :| 0 <= k < |Inputs(s)| && Inputs(s)[k] == name;
    m := k;
  }

  lemma InputsPresent(j: Job, i: nat)
    requires j.Accepted() && NoHistogramReads(j) && WellSized(j) && i < |j.prog|
    ensures forall name :: name in Inputs(j.prog[i]) ==> Has(j.After(i).cols, name, j.nR)
  {
    forall name | name in Inputs(j.prog[i]) ensures Has(j.After(i).cols, name, j.nR) {
      var m := InputUse(j.prog[i], j.tbl, name);
      UseAt(j, i, m);
      ReadPresent(j, i, m);
    }
  }

  // ----- the meaning of the program

  /** The columns before, between and after the statements. */
  ghost function Environments(j: Job): (e: seq<Columns>)
    ensures |e| == |j.prog| + 1 && forall i :: 0 <= i <= |j.prog| ==> e[i] == j.After(i).cols
  {
    seq(|j.prog| + 1, i requires 0 <= i <= |j.prog| => j.After(i).cols)
  }

  lemma RunMeans(j: Job)
    requires j.Accepted() && NoHistogramReads(j) && WellSized(j)
    ensures Means(j.kernels, j.prog, j.table, j.nR, Environments(j))
  {
    var e := Environments(j);
    forall i | 0 <= i < |j.prog| ensures Effect(j.kernels, j.prog[i], j.nR, e[i], e[i+1]) {
      StatementEffect(j, i, i + 1, e[i], e[i+1]);
    }
  }

  lemma StatementEffect(j: Job, i: nat, next: nat, a: Columns, b: Columns)
    requires j.Accepted() && NoHistogramReads(j) && WellSized(j) && next == i + 1 <= |j.prog|
    requires a == j.After(i).cols && b == j.After(next).cols
    ensures Effect(j.kernels, j.prog[i], j.nR, a, b)
  {
    InputsPresent(j, i);
    StepEffect(j.kernels, j.prog[i], i, j.After(i), j.nR, j.sizes);
    assert j.After(next) == StepWhole(j.kernels, j.prog[i], i, j.After(i), j.nR, j.sizes);
  }

  // ----- what is reported

  /** The mask column of a count. */
  ghost function MaskOf(a: Columns, cfld: string): Option<Column> {
    if cfld == "" then None else if cfld in a then Some(a[cfld]) else Some([])
  }

  /** The column that statement `r` writes, unless its name ends in a quote, is the last of that name. */
  ghost predicate ColumnReported(st: State, b: Buf, name: string, r: nat, e: seq<Columns>)
    requires r + 1 < |e|
  {
    (name != "" && name[|name|-1] != '\'') ==>
      && b in st.cols && name in e[r+1] && name in e[|e|-1]
      && st.cols[b] == e[r+1][name] == e[|e|-1][name]
  }

  ghost predicate HistogramReported(st: State, b: Buf, size: nat, keys: Column, weights: Option<Column>,
                                    mask: Option<Column>) {
    && b in st.hists && |st.hists[b]| == size
    && (weights.Some? ==> |weights.value| == |keys|) && (mask.Some? ==> |mask.value| == |keys|)
    && IsCounted(st.hists[b], keys, weights, mask)
  }

  /** The output of statement `r`, from the columns `e[r]` that it finds. */
  ghost predicate Reported(s: Stmt, nR: nat, sizes: map<string, nat>, e: seq<Columns>, st: State, r: nat)
    requires r + 1 < |e|
  {
    var a := e[r];
    && (forall name :: name in Inputs(s) ==> Has(a, name, nR))
    && match s
       case F1OpF2(_, _, f2) => ColumnReported(st, Buf(r, 1), f2, r, e)
       case F1S1OpF2(_, _, _, f2) => ColumnReported(st, Buf(r, 1), f2, r, e)
       case F1F2OpF3(_, _, _, f3) => ColumnReported(st, Buf(r, 2), f3, r, e)
       case FToS(f1, agg, _) => f1 in a && r < |st.parts| && IsAggregate(agg, a[f1], st.parts[r])
       case F1F2ToS(f1, f2, _) =>
         f1 in a && f2 in a && |a[f1]| == |a[f2]| && r < |st.parts| && IsMaskedSum(a[f1], a[f2], st.parts[r])
       case Count(f1, cfld, otbl, _) =>
         f1 in a && otbl in sizes && HistogramReported(st, Buf(r, 2), sizes[otbl], a[f1], None, MaskOf(a, cfld))
       case CountF(f1, f2, cfld, otbl, _) =>
         && f1 in a && f2 in a && otbl in sizes
         && HistogramReported(st, Buf(r, 3), sizes[otbl], a[f2], Some(a[f1]), MaskOf(a, cfld))
  }

  /** All outputs of a program. */
  ghost predicate Reports(prog: seq<Stmt>, nR: nat, sizes: map<string, nat>, e: seq<Columns>, st: State) {
    && |e| == |prog| + 1 && |st.parts| == |prog|
    && forall r {:trigger Reported(prog[r], nR, sizes, e, st, r)} ::
         0 <= r < |prog| ==> Reported(prog[r], nR, sizes, e, st, r)
  }

  lemma ColumnIsReported(j: Job, st: State, r: nat)
    requires j.Accepted() && NoHistogramReads(j) && WellSized(j) && SameAsWhole(j, st)
    requires r < |j.prog| && ColumnOut(j.prog[r]).Some?
    ensures var (c, name) := ColumnOut(j.prog[r]).value; ColumnReported(st, Buf(r, c), name, r, Environments(j))
  {
    var (c, name) := ColumnOut(j.prog[r]).value;
    if !IsTemp(name) { SameColumn(j, st, r, c, name); }
    ColumnReports(j, st, r, c, name);
  }

  lemma ColumnReports(j: Job, st: State, r: nat, c: nat, name: string)
    requires j.Accepted() && WellSized(j) && r < |j.prog| && WritesColumn(j.prog[r], name)
    requires !IsTemp(name) ==> Buf(r, c) in st.cols && st.cols[Buf(r, c)] == Col(j.After(|j.prog|), name, j.nR)
    ensures ColumnReported(st, Buf(r, c), name, r, Environments(j))
  {
    ColumnStays(j, r, name, Environments(j)[r+1], Environments(j)[|j.prog|]);
  }

  lemma SameColumn(j: Job, st: State, r: nat, c: nat, name: string)
    requires SameAsWhole(j, st) && r < |j.prog| && ColumnOut(j.prog[r]) == Some((c, name)) && !IsTemp(name)
    ensures Buf(r, c) in st.cols && st.cols[Buf(r, c)] == Col(j.After(|j.prog|), name, j.nR)
  {}

  lemma ColumnStays(j: Job, r: nat, name: string, next: Columns, last: Columns)
    requires j.Accepted() && WellSized(j) && r < |j.prog| && WritesColumn(j.prog[r], name)
    requires next == j.After(r + 1).cols && last == j.After(|j.prog|).cols
    ensures name in next && name in last && next[name] == last[name] == Col(j.After(|j.prog|), name, j.nR)
  {
    ColumnFinal(j, r, name);
    ColumnThere(j, r, r + 1, name);
    ColumnThere(j, r, |j.prog|, name);
  }

  /** A column that was written is there from then on. */
  lemma ColumnThere(j: Job, r: nat, n: nat, name: string)
    requires WellSized(j) && r < n <= |j.prog| && WritesColumn(j.prog[r], name)
    ensures Has(j.After(n).cols, name, j.nR) && Col(j.After(n), name, j.nR) == j.After(n).cols[name]
  {
    StepNames(j, r, r + 1, name);
    NamesStay(j, r + 1, n, name);
    AllSized(j, n);
  }

  lemma ScalarIsReported(j: Job, st: State, r: nat)
    requires j.Accepted() && NoHistogramReads(j) && WellSized(j) && SameAsWhole(j, st)
    requires r < |j.prog| && (j.prog[r].FToS? || j.prog[r].F1F2ToS?)
    ensures Reported(j.prog[r], j.nR, j.sizes, Environments(j), st, r)
  {
    InputsPresent(j, r);
    ScalarStable(j, r, |j.prog|);
    var e, next := j.After(r), r + 1;
    assert j.After(next) == StepWhole(j.kernels, j.prog[r], r, e, j.nR, j.sizes);
    match j.prog[r] {
      case FToS(f1, agg, _) =>
        assert f1 in Inputs(j.prog[r]);
        AggregateIs(agg, Col(e, f1, j.nR));
      case F1F2ToS(f1, f2, _) =>
        assert f1 in Inputs(j.prog[r]) && f2 in Inputs(j.prog[r]);
        MaskedSumIs(Col(e, f1, j.nR), Col(e, f2, j.nR));
    }
  }

  lemma CountIsReported(j: Job, st: State, r: nat)
    requires j.Accepted() && NoHistogramReads(j) && WellSized(j) && SameAsWhole(j, st)
    requires r < |j.prog| && j.prog[r].Count?
    ensures Reported(j.prog[r], j.nR, j.sizes, Environments(j), st, r)
  {
    InputsPresent(j, r);
    OutTableThere(j, r);
    var s, e := j.prog[r], j.After(r);
    assert s.f1 in Inputs(s);
    MaskPresent(j, r, s.cfld);
    var h := Histogram(ZeroCounts(TableRows(j.sizes, s.otbl)), Col(e, s.f1, j.nR), None, MaskCol(e, s.cfld, j.nR));
    HistogramIs(TableRows(j.sizes, s.otbl), Col(e, s.f1, j.nR), None, MaskCol(e, s.cfld, j.nR));
    CountStep(j, r, r + 1, (s.otbl, s.f3), h);
    assert HistogramSame(j, st, r);
    assert st.hists[Buf(r, 2)] == h;
  }

  lemma CountFIsReported(j: Job, st: State, r: nat)
    requires j.Accepted() && NoHistogramReads(j) && WellSized(j) && SameAsWhole(j, st)
    requires r < |j.prog| && j.prog[r].CountF?
    ensures Reported(j.prog[r], j.nR, j.sizes, Environments(j), st, r)
  {
    InputsPresent(j, r);
    OutTableThere(j, r);
    var s, e := j.prog[r], j.After(r);
    assert s.f1 in Inputs(s) && s.f2 in Inputs(s);
    MaskPresent(j, r, s.cfld);
    var keys, weights := Col(e, s.f2, j.nR), Some(Col(e, s.f1, j.nR));
    var h := Histogram(ZeroCounts(TableRows(j.sizes, s.otbl)), keys, weights, MaskCol(e, s.cfld, j.nR));
    HistogramIs(TableRows(j.sizes, s.otbl), keys, weights, MaskCol(e, s.cfld, j.nR));
    CountStep(j, r, r + 1, (s.otbl, s.f4), h);
    assert HistogramSame(j, st, r);
    assert st.hists[Buf(r, 3)] == h;
  }

  /** The histogram that the whole-table run stores. */
  lemma CountStep(j: Job, r: nat, next: nat, key: (string, string), h: seq<int>)
    requires next == r + 1 <= |j.prog|
    requires var e := j.After(r);
      match j.prog[r]
      case Count(f1, cfld, otbl, f3) =>
        && key == (otbl, f3)
        && h == Histogram(ZeroCounts(TableRows(j.sizes, otbl)), Col(e, f1, j.nR), None, MaskCol(e, cfld, j.nR))
      case CountF(f1, f2, cfld, otbl, f4) =>
        && key == (otbl, f4)
        && h == Histogram(ZeroCounts(TableRows(j.sizes, otbl)), Col(e, f2, j.nR), Some(Col(e, f1, j.nR)),
                          MaskCol(e, cfld, j.nR))
      case _ => false
    ensures key in j.After(next).hists && j.After(next).hists[key] == h
  {
    assert j.After(next) == StepWhole(j.kernels, j.prog[r], r, j.After(r), j.nR, j.sizes);
  }

  lemma MaskPresent(j: Job, r: nat, cfld: string)
    requires r < |j.prog| && (j.prog[r].Count? || j.prog[r].CountF?) && cfld == j.prog[r].cfld
    requires forall name :: name in Inputs(j.prog[r]) ==> Has(j.After(r).cols, name, j.nR)
    ensures MaskCol(j.After(r), cfld, j.nR) == MaskOf(j.After(r).cols, cfld)
  {
    if cfld != "" { assert cfld in Inputs(j.prog[r]); }
  }

  /** A count of an accepted program has an existing output table. */
  lemma OutTableThere(j: Job, r: nat)
    requires j.Accepted() && r < |j.prog| && (j.prog[r].Count? || j.prog[r].CountF?)
    ensures j.prog[r].otbl in j.sizes && j.prog[r].otbl != j.tbl
  {
    AcceptedExactly(j.prog, j.tbl, j.table.Keys, j.sizes);
    assert Fits(j.prog, r, j.tbl, j.table.Keys, j.sizes);
  }

  lemma RunReports(j: Job, st: State)
    requires j.Accepted() && NoHistogramReads(j) && WellSized(j) && SameAsWhole(j, st)
    ensures Reports(j.prog, j.nR, j.sizes, Environments(j), st)
  {
    var e := Environments(j);
    forall r | 0 <= r < |j.prog| ensures Reported(j.prog[r], j.nR, j.sizes, e, st, r) {
      match j.prog[r] {
        case FToS(_, _, _) => ScalarIsReported(j, st, r);
        case F1F2ToS(_, _, _) => ScalarIsReported(j, st, r);
        case Count(_, _, _, _) => CountIsReported(j, st, r);
        case CountF(_, _, _, _, _) => CountFIsReported(j, st, r);
        case _ =>
          InputsPresent(j, r);
          ColumnIsReported(j, st, r);
      }
    }
  }

  // ----- when a run is defined

  /** No statement reads what an earlier count makes. */
  ghost predicate ReadsNoCount(prog: seq<Stmt>) {
    forall p, i :: 0 <= p < i < |prog| && prog[p].Count? ==> prog[p].f3 !in Inputs(prog[i])
  }

  /** The output of a count under a temporary's name has no more entries than a temporary. */
  ghost predicate CountsFit(prog: seq<Stmt>, sizes: map<string, nat>) {
    forall r :: 0 <= r < |prog| ==> match prog[r]
      case Count(_, _, otbl, f3) => otbl in sizes && f3 != "" && f3[|f3|-1] == '\'' ==> sizes[otbl] <= 2 * BLOCK
      case CountF(_, _, _, otbl, f4) => otbl in sizes && f4 != "" && f4[|f4|-1] == '\'' ==> sizes[otbl] <= 2 * BLOCK
      case _ => true
  }

  lemma NoCountRead(j: Job)
    requires j.Accepted()
    ensures NoHistogramReads(j) <==> ReadsNoCount(j.prog)
  {
    if ReadsNoCount(j.prog) {
      forall p, i, m | 0 <= p < i < |j.prog| && j.prog[p].Count? && 0 <= m < |j.Us()[i]| && !j.Us()[i][m].write
        ensures j.Us()[i][m].name != j.prog[p].f3
      {
        UsesAre(j.prog[i], j.tbl, j.Us()[i][m].name);
      }
    }
    if !ReadsNoCount(j.prog) {
      var p, i :| 0 <= p < i < |j.prog| && j.prog[p].Count? && j.prog[p].f3 in Inputs(j.prog[i]);
      var m := InputUse(j.prog[i], j.tbl, j.prog[p].f3);
      assert !j.Us()[i][m].write && j.Us()[i][m].name == j.prog[p].f3;
    }
  }

  lemma CountsFitIs(j: Job)
    ensures HistogramsFit(j) <==> CountsFit(j.prog, j.sizes)
  {}

  // ----- the whole command

  /**
   Check, run and release a compound expression.  A program is accepted when
   all its statements fit.  The run is `defined` when every block start fits an
   int (`BlockStartExact`), every read resolves to a column
   (`ReadsColumnsExactly`), and counts into a temporary's buffer fit there.
   Then its outcome is that of the whole-table run, and if the columns of the
   table have an entry for every row, it is what the cells say: `e` are the
   columns that the statements make of the table, row by row, and every output
   is the one that `Reports` describes.
   */
  method RunCompound(kernels: Kernels, prog: seq<Stmt>, tbl: string, table: map<string, Column>, nR: nat,
                     sizes: map<string, nat>, numCores: nat)
    returns (status: int, defined: bool, j: Job, st: State, freed: seq<Buf>, ghost e: seq<Columns>)
    requires nR > 0 && numCores > 0
    ensures status ==
            if 2 <= |prog| <= 32 && forall i :: 0 <= i < |prog| ==> Fits(prog, i, tbl, table.Keys, sizes) then 0 else -1
    ensures status == 0 ==> j == Job(kernels, prog, tbl, table, nR, sizes, j.slots) && j.Accepted()
    ensures status == 0 ==> (defined <==> nR < 2049 * BLOCK && ReadsNoCount(prog) && CountsFit(prog, sizes))
    ensures status == 0 && defined ==> SameAsWhole(j, st)
    ensures status == 0 && defined && (forall f :: f in table ==> |table[f]| == nR) ==>
              Means(kernels, prog, table, nR, e) && Reports(prog, nR, sizes, e, st)
    ensures status == 0 ==>
              && Increasing(freed) && Shaped(j.slots)
              && forall b :: b in freed <==> b.row < |j.slots| && b.col < 3 && Owns(j.slots[b.row][b.col])
  {
    var checker := new Checker(tbl, table.Keys, sizes);
    j, st, freed := Job(kernels, prog, tbl, table, nR, sizes, []), State(map[], map[], map[], []), [];
    defined, e := false, [];
    status := checker.ChkCompExpr(prog);
    AcceptedExactly(prog, tbl, table.Keys, sizes);
    if status != 0 { return; }
    j := Job(kernels, prog, tbl, table, nR, sizes, checker.slots);
    AcceptedRows(j);
    defined := nR < 2049 * BLOCK && NoHistogramReads(j) && HistogramsFit(j);
    NoCountRead(j);
    CountsFitIs(j);
    if defined {
      Prepared(j);
      st := ExecCompExpr(j, Prepare(j), numCores);
      e := Environments(j);
      if forall f :: f in table ==> |table[f]| == nR {
        RunMeans(j);
        RunReports(j, st);
      }
    }
    freed := ReleaseCompExpr(j.slots, j.Us(), table.Keys);
  }
}
