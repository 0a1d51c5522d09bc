/**
 From names to buffers: in an accepted compound program every field that is
 read resolves to the buffer holding exactly the column its name denotes at
 that point of the sequential whole-table run.
 */
module CompoundMeaning {
  import opened CompoundSpec
  import opened CompoundCheck

  /** A program, the table it runs on, and the slots the checker filled. */
  datatype Job = Job(kernels: Kernels, prog: seq<Stmt>, tbl: string, table: map<string, Column>, nR: nat,
                     sizes: map<string, nat>, slots: Rows)
  {
    function Us(): seq<seq<Use>> { AllUses(prog, tbl) }

    /** The environment after the first `n` statements. */
    ghost function After(n: nat): Env
      requires n <= |prog|
    {
      RunWhole(kernels, prog, n, table, nR, sizes)
    }

    ghost predicate Accepted() {
      && nR > 0
      && CheckProgram(prog, tbl, table.Keys, sizes) == Some(slots)
    }
  }

  lemma AcceptedRows(j: Job)
    requires j.Accepted()
    ensures RowsOK(j.Us(), j.slots, |j.prog|, j.table.Keys)
    ensures forall i :: 0 <= i < |j.prog| ==> LeftToRight(j.Us()[i])
  {
    AllLeftToRight(j.prog, j.tbl);
    CheckedRows(j.Us(), AllFit(j.prog, j.tbl, j.sizes), |j.prog|, j.table.Keys);
  }

  /** Statement `s` writes column `name` of the table (or temporary `name`). */
  predicate WritesColumn(s: Stmt, name: string) {
    match s
    case F1OpF2(_, _, f2) => f2 == name
    case F1S1OpF2(_, _, _, f2) => f2 == name
    case F1F2OpF3(_, _, _, f3) => f3 == name
    case _ => false
  }

  lemma ColumnStable(j: Job, name: string, lo: nat, hi: nat)
    requires lo <= hi <= |j.prog|
    requires forall r :: lo <= r < hi ==> !WritesColumn(j.prog[r], name)
    ensures Col(j.After(lo), name, j.nR) == Col(j.After(hi), name, j.nR)
  {
    var s := seq(|j.prog| + 1, n requires 0 <= n <= |j.prog| => Col(j.After(n), name, j.nR));
    forall n | lo <= n < hi ensures s[n] == s[n+1] {
      ColumnKept(j, name, n, n + 1);
    }
    Constant(s, lo, hi);
  }

  /** What no step changes is the same at the end. */
  lemma {:induction false} Constant<T>(s: seq<T>, lo: nat, hi: nat)
    requires lo <= hi < |s| && forall n :: lo <= n < hi ==> s[n] == s[n+1]
    ensures s[lo] == s[hi]
  {
    if lo < hi { Constant(s, lo, hi - 1); }
  }

  lemma ColumnKept(j: Job, name: string, m: nat, n: nat)
    requires n == m + 1 <= |j.prog| && !WritesColumn(j.prog[m], name)
    ensures Col(j.After(m), name, j.nR) == Col(j.After(n), name, j.nR)
  {
    assert j.After(n) == StepWhole(j.kernels, j.prog[m], m, j.After(m), j.nR, j.sizes);
  }

  /** A statement that writes a column does so in its own slot 1 or 2. */
  lemma ColumnSlot(j: Job, r: nat, name: string) returns (c: nat)
    requires j.Accepted() && r < |j.prog| && WritesColumn(j.prog[r], name)
    ensures Shaped(j.slots) && c < 3 && Writes(j.slots, r, c, name) && j.slots[r][c].X == Some(Buf(r, c))
  {
    AcceptedRows(j);
    var us := j.Us()[r];
    var n := |us| - 1;
    assert us == Uses(j.prog[r], j.tbl);
    assert RowOK(j.slots, r, us, |us|, j.table.Keys);
    assert UseOK(j.slots, r, us[n], j.table.Keys);
    c := us[n].col;
  }

  /** A write in slots 0 to 2 writes a column, or is the output of a count. */
  lemma WriterKind(j: Job, p: nat, q: nat, name: string)
    requires j.Accepted() && Shaped(j.slots) && q < 3 && Writes(j.slots, p, q, name)
    ensures p < |j.prog|
    ensures WritesColumn(j.prog[p], name) || (j.prog[p].Count? && j.prog[p].f3 == name && q == 2)
  {
    AcceptedRows(j);
    var m := SlotOfUse(j.Us(), j.slots, j.table.Keys, p, q);
    assert j.Us()[p] == Uses(j.prog[p], j.tbl);
    assert m == |j.Us()[p]| - 1;
  }

  /** No statement reads a name that an earlier count gave to its output. */
  predicate NoHistogramReads(j: Job) {
    forall p, i, m :: 0 <= p < i < |j.prog| && j.prog[p].Count? && 0 <= m < |j.Us()[i]| && !j.Us()[i][m].write
      ==> j.Us()[i][m].name != j.prog[p].f3
  }

  /** The value a buffer holds for the whole table: an input column, or what its statement computes. */
  ghost function BufValue(j: Job, b: Buf): (c: Column)
    requires b.row < |j.prog| == |j.slots| && Shaped(j.slots) && b.col < 4
    ensures |c| == j.nR
  {
    var s := j.slots[b.row][b.col];
    Col(j.After(if s.isWrite == 1 then b.row + 1 else 0), s.name, j.nR)
  }

  /** Resolution is right: the buffer read holds what the name denotes when the statement runs. */
  lemma ReadsRight(j: Job, i: nat, m: nat)
    requires j.Accepted() && NoHistogramReads(j)
    requires i < |j.prog| && m < |j.Us()[i]| && !j.Us()[i][m].write
    ensures Shaped(j.slots) && |j.slots| == |j.prog| && j.Us()[i][m].col < 4
    ensures var x := j.slots[i][j.Us()[i][m].col].X;
      x.Some? && x.value.row <= i && x.value.col < 4
      && BufValue(j, x.value) == Col(j.After(i), j.Us()[i][m].name, j.nR)
  {
    AcceptedRows(j);
    var u := j.Us()[i][m];
    ReadAfterWrite(j.Us(), j.slots, j.table.Keys, i, m);
    var s := j.slots[i][u.col];
    var x := s.X.value;
    assert RowOK(j.slots, i, j.Us()[i], |j.Us()[i]|, j.table.Keys);
    assert UseOK(j.slots, i, u, j.table.Keys);
    if s.isFirst == 1 {
      NeverWritten(j, i, u.name, x);
    } else {
      WriterKind(j, x.row, x.col, u.name);
      WrittenBefore(j, x.row, x.col, i, u.name);
    }
  }

  /** A name that no earlier row writes still denotes the column of the table. */
  lemma NeverWritten(j: Job, i: nat, name: string, x: Buf)
    requires j.Accepted() && Shaped(j.slots) && i < |j.prog| == |j.slots| && x.row == i && x.col < 4
    requires j.slots[i][x.col].name == name && j.slots[i][x.col].isWrite == 0
    requires forall p: nat, q: nat :: p < i && q < 3 ==> !Writes(j.slots, p, q, name)
    ensures BufValue(j, x) == Col(j.After(i), name, j.nR)
  {
    forall r | 0 <= r < i ensures !WritesColumn(j.prog[r], name) {
      if WritesColumn(j.prog[r], name) {
        var c := ColumnSlot(j, r, name);
      }
    }
    ColumnStable(j, name, 0, i);
  }

  /** A name that an earlier row writes still denotes what it wrote. */
  lemma WrittenBefore(j: Job, r: nat, c: nat, i: nat, name: string)
    requires j.Accepted() && Shaped(j.slots) && r < i <= |j.prog| == |j.slots| && c < 3 && Writes(j.slots, r, c, name)
    ensures BufValue(j, Buf(r, c)) == Col(j.After(r + 1), name, j.nR) == Col(j.After(i), name, j.nR)
  {
    NoLaterWriter(j, r, c, name);
    ColumnStable(j, name, r + 1, i);
  }

  /** Once written, a column is not written again. */
  lemma NoLaterWriter(j: Job, r: nat, c: nat, name: string)
    requires j.Accepted() && Shaped(j.slots) && r < |j.prog| && c < 3 && Writes(j.slots, r, c, name)
    ensures forall t :: r + 1 <= t < |j.prog| ==> !WritesColumn(j.prog[t], name)
  {
    AcceptedRows(j);
    forall t | r + 1 <= t < |j.prog| ensures !WritesColumn(j.prog[t], name) {
      if WritesColumn(j.prog[t], name) {
        var c' := ColumnSlot(j, t, name);
        WrittenOnce(j.Us(), j.slots, j.table.Keys, r, c, t, c', name);
      }
    }
  }

  /** A persistent column keeps the value its statement gave it to the end of the run. */
  lemma ColumnFinal(j: Job, r: nat, name: string)
    requires j.Accepted() && r < |j.prog| && WritesColumn(j.prog[r], name)
    ensures Col(j.After(r + 1), name, j.nR) == Col(j.After(|j.prog|), name, j.nR)
  {
    var c := ColumnSlot(j, r, name);
    WrittenBefore(j, r, c, |j.prog|, name);
  }

  /** The buffer is a histogram of another table, not a column of this one. */
  ghost predicate IsHistogram(j: Job, b: Buf) {
    b.row < |j.prog| && b.col == 2 && j.prog[b.row].Count?
  }

  /** A count's output is what later reads of its name resolve to. */
  lemma HistogramReadHit(j: Job, p: nat, i: nat, m: nat)
    requires j.Accepted() && p < i < |j.prog| && j.prog[p].Count?
    requires m < |j.Us()[i]| && !j.Us()[i][m].write && j.Us()[i][m].name == j.prog[p].f3
    ensures Shaped(j.slots) && j.Us()[i][m].col < 4 && j.slots[i][j.Us()[i][m].col].X == Some(Buf(p, 2))
  {
    AcceptedRows(j);
    var u := j.Us()[i][m];
    CountSlot(j, p);
    ReadAfterWrite(j.Us(), j.slots, j.table.Keys, i, m);
    var x := j.slots[i][u.col].X.value;
    WrittenOnce(j.Us(), j.slots, j.table.Keys, x.row, x.col, p, 2, u.name);
    WrittenOnce(j.Us(), j.slots, j.table.Keys, p, 2, x.row, x.col, u.name);
    WriterKind(j, x.row, x.col, u.name);
    OwnersRelease(j.Us(), j.slots, j.table.Keys, p, 2);
  }

  lemma CountSlot(j: Job, p: nat)
    requires j.Accepted() && p < |j.prog| && j.prog[p].Count?
    ensures Shaped(j.slots) && Writes(j.slots, p, 2, j.prog[p].f3) && j.slots[p][2].X == Some(Buf(p, 2))
  {
    AcceptedRows(j);
    var us := j.Us()[p];
    assert us == Uses(j.prog[p], j.tbl);
    assert RowOK(j.slots, p, us, |us|, j.table.Keys);
    assert UseOK(j.slots, p, us[|us|-1], j.table.Keys);
  }

  /** Field `m` of statement `i` is read from a histogram. */
  ghost predicate HitsHistogram(j: Job, i: nat, m: nat) {
    && i < |j.prog| == |j.slots| && Shaped(j.slots)
    && m < |j.Us()[i]| && !j.Us()[i][m].write && j.Us()[i][m].col < 4
    && j.slots[i][j.Us()[i][m].col].X.Some? && IsHistogram(j, j.slots[i][j.Us()[i][m].col].X.value)
  }

  lemma HitMeansSharedName(j: Job, i: nat, m: nat)
    requires j.Accepted() && HitsHistogram(j, i, m)
    ensures exists p :: 0 <= p < i && j.prog[p].Count? && j.prog[p].f3 == j.Us()[i][m].name
  {
    AcceptedRows(j);
    var u := j.Us()[i][m];
    ReadAfterWrite(j.Us(), j.slots, j.table.Keys, i, m);
    assert j.Us()[i] == Uses(j.prog[i], j.tbl);
    var x := j.slots[i][u.col].X.value;
    assert j.slots[i][u.col].isFirst != 1;
    WriterKind(j, x.row, x.col, u.name);
  }

  /** Reads resolve to the table's columns exactly when no read repeats an earlier count's output name. */
  lemma ReadsColumnsExactly(j: Job)
    requires j.Accepted()
    ensures NoHistogramReads(j) <==> forall i: nat, m: nat :: !HitsHistogram(j, i, m)
  {
    AcceptedRows(j);
    if NoHistogramReads(j) {
      forall i: nat, m: nat ensures !HitsHistogram(j, i, m) {
        if HitsHistogram(j, i, m) { HitMeansSharedName(j, i, m); }
      }
    } else {
      var p, i, m :| 0 <= p < i < |j.prog| && j.prog[p].Count? && 0 <= m < |j.Us()[i]| && !j.Us()[i][m].write
        && j.Us()[i][m].name == j.prog[p].f3;
      HistogramReadHit(j, p, i, m);
      assert HitsHistogram(j, i, m);
    }
  }

  // ----- the smallest program that reads a histogram by mistake

  const COUNTED := [Count("k", "", "o", "c"), F1OpF2("c", "op", "d")]
  const COUNTED_FIELDS := {"k", "c"}
  const COUNTED_SIZES: map<string, nat> := map["o" := 5, "t" := 9]

  lemma FirstRow()
    ensures var us, fit := AllUses(COUNTED, "t"), AllFit(COUNTED, "t", COUNTED_SIZES);
      var k, c := Slot("k", "t", 0, 0, 1, Some(Buf(0, 0))), Slot("c", "o", 0, 1, 1, Some(Buf(0, 2)));
      Check(us, fit, 1, COUNTED_FIELDS) ==
        Some([[k, ZERO_SLOT, c, ZERO_SLOT], [ZERO_SLOT, ZERO_SLOT, ZERO_SLOT, ZERO_SLOT]])
  {
    var us, fit := AllUses(COUNTED, "t"), AllFit(COUNTED, "t", COUNTED_SIZES);
    var z := ZeroRows(2);
    assert Check(us, fit, 0, COUNTED_FIELDS) == Some(z);
    assert us[0] == [Use(0, "k", false, "t"), Use(2, "c", true, "o")];
    assert ProcUses(z, 0, us[0], 0, COUNTED_FIELDS) == Some(z);
    assert LastMatch(z, 1, "k", 0).None? && LastMatch(z, 1, "c", 0).None?;
    var z1 := Put(z, 0, 0, Slot("k", "t", 0, 0, 1, Some(Buf(0, 0))));
    assert ProcUses(z, 0, us[0], 1, COUNTED_FIELDS) == Some(z1);
    assert LastMatch(z1, 0, "c", 0).None?;
    assert LastMatch(z1, 1, "c", 0).None?;
    var z2 := Put(z1, 0, 2, Slot("c", "o", 0, 1, 1, Some(Buf(0, 2))));
    assert ProcUses(z, 0, us[0], 2, COUNTED_FIELDS) == Some(z2);
    assert fit[0];
    assert z2[0] == [Slot("k", "t", 0, 0, 1, Some(Buf(0, 0))), ZERO_SLOT, Slot("c", "o", 0, 1, 1, Some(Buf(0, 2))),
        ZERO_SLOT];
    assert z2[1] == [ZERO_SLOT, ZERO_SLOT, ZERO_SLOT, ZERO_SLOT];
    assert z2 == [z2[0], z2[1]];
  }

  /** Accepted, although its second statement reads the other table's counters instead of the table's column `c`. */
  lemma HistogramReadExample(kernels: Kernels, table: map<string, Column>, nR: nat)
    requires nR > 0 && table.Keys == COUNTED_FIELDS
    ensures CheckProgram(COUNTED, "t", COUNTED_FIELDS, COUNTED_SIZES).Some?
    ensures HitsHistogram(Job(kernels, COUNTED, "t", table, nR, COUNTED_SIZES,
                              CheckProgram(COUNTED, "t", COUNTED_FIELDS, COUNTED_SIZES).value), 1, 0)
  {
    var us, fit := AllUses(COUNTED, "t"), AllFit(COUNTED, "t", COUNTED_SIZES);
    FirstRow();
    var p := Check(us, fit, 1, COUNTED_FIELDS).value;
    assert us[1] == [Use(0, "c", false, "t"), Use(1, "d", true, "t")];
    assert ProcUses(p, 1, us[1], 0, COUNTED_FIELDS) == Some(p);
    assert LastMatch(p, 1, "c", 0) == Some(Buf(0, 2)) && LastMatch(p, 2, "c", 0) == Some(Buf(0, 2));
    assert Accepts(p, 1, us[1][0], COUNTED_FIELDS);
    var q := ProcUses(p, 1, us[1], 1, COUNTED_FIELDS).value;
    assert LastMatch(q, 0, "d", 0).None?;
    assert LastMatch(q, 1, "d", 0).None?;
    assert LastMatch(q, 2, "d", 0).None?;
    assert Accepts(q, 1, us[1][1], COUNTED_FIELDS);
    assert fit[1];
    var j := Job(kernels, COUNTED, "t", table, nR, COUNTED_SIZES, Check(us, fit, 2, COUNTED_FIELDS).value);
    HistogramReadHit(j, 0, 1, 0);
  }
}
