/**
 The compound-expression checker (q-base/src/compound.c:107-134, 176-384,
 388-666, 698-743): every statement's fields are resolved, slot by slot, to
 buffers, and every buffer is released once.
 */
module CompoundCheck {
  import opened CompoundSpec

  const MAX_LEN_FLD_NAME := 31
  const MAX_STATEMENTS := 32

  /** A buffer is named by the slot that allocated it. */
  datatype Buf = Buf(row: nat, col: nat)

  /** COMP_EXPR_FLD_INFO_TYPE: the flags are -1 until set. */
  datatype Slot = Slot(name: string, tbl: string, isTemp: int, isWrite: int, isFirst: int, X: Option<Buf>)

  const ZERO_SLOT := Slot("", "", -1, -1, 0, None)

  type Rows = seq<seq<Slot>>

  /** One field of a statement: the slot it goes to, and whether the statement writes it. */
  datatype Use = Use(col: nat, name: string, write: bool, tbl: string)

  function MaskUse(col: nat, cfld: string, tbl: string): seq<Use> {
    if cfld == "" then [] else [Use(col, cfld, false, tbl)]
  }

  /** The fields of a statement in the order in which the checker handles them. */
  function Uses(s: Stmt, tbl: string): seq<Use> {
    match s
    case F1OpF2(f1, _, f2) => [Use(0, f1, false, tbl), Use(1, f2, true, tbl)]
    case F1S1OpF2(f1, _, _, f2) => [Use(0, f1, false, tbl), Use(1, f2, true, tbl)]
    case F1F2OpF3(f1, f2, _, f3) => [Use(0, f1, false, tbl), Use(1, f2, false, tbl), Use(2, f3, true, tbl)]
    case FToS(f1, _, _) => [Use(0, f1, false, tbl)]
    case F1F2ToS(f1, f2, _) => [Use(0, f1, false, tbl), Use(1, f2, false, tbl)]
    case Count(f1, cfld, otbl, f3) => [Use(0, f1, false, tbl)] + MaskUse(1, cfld, tbl) + [Use(2, f3, true, otbl)]
    case CountF(f1, f2, cfld, otbl, f4) =>
      [Use(0, f1, false, tbl), Use(1, f2, false, tbl)] + MaskUse(2, cfld, tbl) + [Use(3, f4, true, otbl)]
  }

  /** Names ending in a single quote are temporaries. */
  predicate IsTemp(name: string) {
    |name| > 0 && name[|name|-1] == '\''
  }

  function TempFlag(name: string): int { if IsTemp(name) then 1 else 0 }

  predicate Matches(s: Slot, name: string, isTemp: int) {
    s.name == name && s.isTemp == isTemp && s.isWrite == 1
  }

  /** The last writer of `name` among the first `n` rows, looking at slots 0 to 2 only. */
  function LastMatch(slots: Rows, n: nat, name: string, isTemp: int): (r: Option<Buf>)
    requires n <= |slots| && forall i :: 0 <= i < |slots| ==> |slots[i]| == 4
    ensures r.Some? ==> r.value.row < n && r.value.col < 3 && Matches(slots[r.value.row][r.value.col], name, isTemp)
    ensures r.None? ==> forall i, j :: 0 <= i < n && 0 <= j < 3 ==> !Matches(slots[i][j], name, isTemp)
  {
    if n == 0 then None
    else if Matches(slots[n-1][2], name, isTemp) then Some(Buf(n - 1, 2))
    else if Matches(slots[n-1][1], name, isTemp) then Some(Buf(n - 1, 1))
    else if Matches(slots[n-1][0], name, isTemp) then Some(Buf(n - 1, 0))
    else LastMatch(slots, n - 1, name, isTemp)
  }

  /** is_created_prior: later matches overwrite earlier ones. */
  method IsCreatedPrior(slots: Rows, n: nat, name: string, isTemp: int) returns (r: Option<Buf>)
    requires n <= |slots| && forall i :: 0 <= i < |slots| ==> |slots[i]| == 4
    ensures r == LastMatch(slots, n, name, isTemp)
  {
    r := None;
    for i := 0 to n
      invariant r == LastMatch(slots, i, name, isTemp)
    {
      for c := 0 to 3
        invariant r == if c > 2 && Matches(slots[i][2], name, isTemp) then Some(Buf(i, 2))
                       else if c > 1 && Matches(slots[i][1], name, isTemp) then Some(Buf(i, 1))
                       else if c > 0 && Matches(slots[i][0], name, isTemp) then Some(Buf(i, 0))
                       else LastMatch(slots, i, name, isTemp)
      {
        var s := slots[i][c];
        if s.name == name && s.isTemp == isTemp && s.isWrite == 1 { r := Some(Buf(i, c)); }
      }
    }
  }

  // ----- one field

  predicate NameOK(name: string) { 0 < |name| <= MAX_LEN_FLD_NAME }

  /** Temporaries are read after they are written; nothing is written twice; other reads find the table's fields. */
  predicate Accepts(slots: Rows, row: nat, u: Use, fields: set<string>)
    requires row < |slots| && forall i :: 0 <= i < |slots| ==> |slots[i]| == 4
  {
    var prior := LastMatch(slots, row + 1, u.name, TempFlag(u.name));
    NameOK(u.name) && if u.write then prior.None? else prior.Some? || (!IsTemp(u.name) && u.name in fields)
  }

  /** The record that proc_fld leaves in the slot. */
  function Resolved(slots: Rows, row: nat, u: Use): Slot
    requires row < |slots| && forall i :: 0 <= i < |slots| ==> |slots[i]| == 4
  {
    var prior := LastMatch(slots, row + 1, u.name, TempFlag(u.name));
    if !u.write && prior.Some? then
      Slot(u.name, u.tbl, TempFlag(u.name), 0, 0, slots[prior.value.row][prior.value.col].X)
    else
      Slot(u.name, u.tbl, TempFlag(u.name), if u.write then 1 else 0, 1, Some(Buf(row, u.col)))
  }

  function Put(slots: Rows, row: nat, col: nat, s: Slot): (r: Rows)
    requires row < |slots| && forall i :: 0 <= i < |slots| ==> |slots[i]| == 4
    ensures |r| == |slots| && forall i :: 0 <= i < |r| ==> |r[i]| == 4
  {
    if col < 4 then slots[row := slots[row][col := s]] else slots
  }

  class Checker {
    const tbl: string
    const fields: set<string>          // the table's fields before the program
    const sizes: map<string, nat>      // rows of every table
    var slots: Rows

    constructor (tbl: string, fields: set<string>, sizes: map<string, nat>)
      ensures this.tbl == tbl && this.fields == fields && this.sizes == sizes && slots == []
    {
      this.tbl, this.fields, this.sizes, this.slots := tbl, fields, sizes, [];
    }

    /** proc_fld: -1 exactly when the field is not acceptable. */
    method ProcFld(row: nat, u: Use) returns (status: int)
      requires row < |slots| && forall i :: 0 <= i < |slots| ==> |slots[i]| == 4
      modifies this
      ensures status == if old(Accepts(slots, row, u, fields)) then 0 else -1
      ensures status == 0 ==> slots == Put(old(slots), row, u.col, old(Resolved(slots, row, u)))
      ensures status != 0 ==> slots == old(slots)
    {
      if |u.name| == 0 || |u.name| > MAX_LEN_FLD_NAME { return -1; }
      var isTemp := if u.name[|u.name|-1] == '\'' then 1 else 0;
      var prior := IsCreatedPrior(slots, row + 1, u.name, isTemp);
      var X;
      var isFirst;
      if isTemp == 1 {
        if prior.Some? {
          isFirst := 0;
          if u.write { return -1; }
          X := slots[prior.value.row][prior.value.col].X;
        } else {
          isFirst := 1;
          if !u.write { return -1; }
          X := Some(Buf(row, u.col));            // malloc of 2 * COMP_EXPR_BLOCK_SIZE rows
        }
      } else if !u.write {
        if prior.Some? {
          isFirst := 0;
          X := slots[prior.value.row][prior.value.col].X;
        } else {
          isFirst := 1;
          if u.name !in fields { return -1; }
          X := Some(Buf(row, u.col));            // mapping of the field's file
        }
      } else {
        isFirst := 1;
        if prior.Some? { return -1; }
        X := Some(Buf(row, u.col));              // mapping of a new file
      }
      if u.col < 4 {
        var s := Slot(u.name, u.tbl, isTemp, if u.write then 1 else 0, isFirst, X);
        slots := slots[row := slots[row][u.col := s]];
      }
      return 0;
    }

    /** chk_comp_expr over a parsed program. */
    method ChkCompExpr(prog: seq<Stmt>) returns (status: int)
      modifies this
      ensures status == if CheckProgram(prog, tbl, fields, sizes).Some? then 0 else -1
      ensures status == 0 ==> slots == CheckProgram(prog, tbl, fields, sizes).value
    {
      var n := |prog|;
      if n <= 1 || n > MAX_STATEMENTS { return -1; }
      slots := ZeroRows(n);
      ghost var us, fit := AllUses(prog, tbl), AllFit(prog, tbl, sizes);
      for lno := 0 to n
        invariant Check(us, fit, lno, fields) == Some(slots)
      {
        var next := lno + 1;
        status := ChkStmt(prog[lno], lno, next, us, fit);
        if status != 0 {
          CheckFails(us, fit, next, n, fields);
          return -1;
        }
      }
      return 0;
    }

    /** One statement of the program. */
    method ChkStmt(s: Stmt, lno: nat, next: nat, ghost us: seq<seq<Use>>, ghost fit: seq<bool>) returns (status: int)
      requires lno < |us| == |fit| && next == lno + 1
      requires us[lno] == Uses(s, tbl) && fit[lno] == OutTableOK(s, tbl, sizes)
      requires Check(us, fit, lno, fields) == Some(slots)
      modifies this
      ensures if Check(us, fit, next, fields).None? then status == -1
              else status == 0 && Check(us, fit, next, fields) == Some(slots)
    {
      status := ProcStmt(lno, Uses(s, tbl));
      if status != 0 { return -1; }
      if (s.Count? || s.CountF?) && (s.otbl !in sizes || s.otbl == tbl) { return -1; }
    }

    method ProcStmt(row: nat, uses: seq<Use>) returns (status: int)
      requires row < |slots| && forall i :: 0 <= i < |slots| ==> |slots[i]| == 4
      modifies this
      ensures status == if ProcUses(old(slots), row, uses, |uses|, fields).Some? then 0 else -1
      ensures status == 0 ==> slots == ProcUses(old(slots), row, uses, |uses|, fields).value
    {
      ghost var was := slots;
      for j := 0 to |uses|
        invariant |slots| == |was| && forall i :: 0 <= i < |slots| ==> |slots[i]| == 4
        invariant ProcUses(was, row, uses, j, fields) == Some(slots)
      {
        status := ProcFld(row, uses[j]);
        if status != 0 {
          ProcUsesFails(was, row, uses, j + 1, |uses|, fields);
          return -1;
        }
      }
      return 0;
    }
  }

  function ZeroRows(n: nat): (r: Rows)
    ensures |r| == n && forall i :: 0 <= i < n ==> |r[i]| == 4
  {
    seq(n, _ => [ZERO_SLOT, ZERO_SLOT, ZERO_SLOT, ZERO_SLOT])
  }

  /** Counts go to an existing other table. */
  predicate OutTableOK(s: Stmt, tbl: string, sizes: map<string, nat>) {
    (s.Count? || s.CountF?) ==> s.otbl in sizes && s.otbl != tbl
  }

  /** The first `n` fields of one statement. */
  function ProcUses(slots: Rows, row: nat, uses: seq<Use>, n: nat, fields: set<string>): (r: Option<Rows>)
    requires row < |slots| && n <= |uses| && forall i :: 0 <= i < |slots| ==> |slots[i]| == 4
    ensures r.Some? ==> |r.value| == |slots| && forall i :: 0 <= i < |slots| ==> |r.value[i]| == 4
  {
    if n == 0 then Some(slots)
    else
      var p := ProcUses(slots, row, uses, n - 1, fields);
      if p.Some? && Accepts(p.value, row, uses[n-1], fields)
      then Some(Put(p.value, row, uses[n-1].col, Resolved(p.value, row, uses[n-1]))) else None
  }

  lemma {:induction false} ProcUsesFails(slots: Rows, row: nat, uses: seq<Use>, m: nat, n: nat, fields: set<string>)
    requires row < |slots| && m <= n <= |uses| && forall i :: 0 <= i < |slots| ==> |slots[i]| == 4
    requires ProcUses(slots, row, uses, m, fields).None?
    ensures ProcUses(slots, row, uses, n, fields).None?
  {
    if m < n { ProcUsesFails(slots, row, uses, m, n - 1, fields); }
  }

  /** The first `n` statements, given their fields and whether their output tables are fit. */
  function Check(us: seq<seq<Use>>, fit: seq<bool>, n: nat, fields: set<string>): (r: Option<Rows>)
    requires n <= |us| == |fit|
    ensures r.Some? ==> |r.value| == |us| && forall i :: 0 <= i < |us| ==> |r.value[i]| == 4
  {
    if n == 0 then Some(ZeroRows(|us|))
    else
      var p := Check(us, fit, n - 1, fields);
      if p.Some? && fit[n-1] then ProcUses(p.value, n - 1, us[n-1], |us[n-1]|, fields) else None
  }

  lemma {:induction false} CheckFails(us: seq<seq<Use>>, fit: seq<bool>, m: nat, n: nat, fields: set<string>)
    requires m <= n <= |us| == |fit| && Check(us, fit, m, fields).None?
    ensures Check(us, fit, n, fields).None?
  {
    if m < n { CheckFails(us, fit, m, n - 1, fields); }
  }

  /** The fields of all statements. */
  function AllUses(prog: seq<Stmt>, tbl: string): (us: seq<seq<Use>>)
    ensures |us| == |prog|
  {
    seq(|prog|, i requires 0 <= i < |prog| => Uses(prog[i], tbl))
  }

  function AllFit(prog: seq<Stmt>, tbl: string, sizes: map<string, nat>): (fit: seq<bool>)
    ensures |fit| == |prog|
  {
    seq(|prog|, i requires 0 <= i < |prog| => OutTableOK(prog[i], tbl, sizes))
  }

  function CheckProgram(prog: seq<Stmt>, tbl: string, fields: set<string>, sizes: map<string, nat>): Option<Rows> {
    if |prog| <= 1 || |prog| > MAX_STATEMENTS then None
    else Check(AllUses(prog, tbl), AllFit(prog, tbl, sizes), |prog|, fields)
  }

  // ----- what an accepted program looks like

  ghost predicate Shaped(slots: Rows) {
    forall i :: 0 <= i < |slots| ==> |slots[i]| == 4
  }

  /** Slots are filled left to right, and only the last field of a statement is written. */
  ghost predicate LeftToRight(uses: seq<Use>) {
    && (forall j :: 0 <= j < |uses| ==> uses[j].col < 4)
    && (forall j :: 0 <= j < |uses| - 1 ==> !uses[j].write)
    && (forall i, j :: 0 <= i < j < |uses| ==> uses[i].col < uses[j].col)
  }

  lemma UsesShape(s: Stmt, tbl: string)
    ensures LeftToRight(Uses(s, tbl))
  {
    match s {
      case F1OpF2(_, _, _) =>
      case F1S1OpF2(_, _, _, _) =>
      case F1F2OpF3(_, _, _, _) =>
      case FToS(_, _, _) =>
      case F1F2ToS(_, _, _) =>
      case Count(f1, cfld, otbl, f3) =>
        if cfld == "" { assert Uses(s, tbl) == [Use(0, f1, false, tbl), Use(2, f3, true, otbl)]; }
      case CountF(f1, f2, cfld, otbl, f4) =>
        if cfld == "" {
          assert Uses(s, tbl) == [Use(0, f1, false, tbl), Use(1, f2, false, tbl), Use(3, f4, true, otbl)];
        }
    }
  }

  /** What slot `u.col` of row `row` must hold, given the rows before it. */
  ghost predicate UseOK(slots: Rows, row: nat, u: Use, fields: set<string>)
    requires row < |slots| && Shaped(slots) && u.col < 4
  {
    var s := slots[row][u.col];
    var prior := LastMatch(slots, row, u.name, TempFlag(u.name));
    && NameOK(u.name)
    && s.name == u.name && s.tbl == u.tbl && s.isTemp == TempFlag(u.name) && s.isWrite == (if u.write then 1 else 0)
    && if u.write then prior.None? && s.isFirst == 1 && s.X == Some(Buf(row, u.col))
       else if prior.Some? then s.isFirst == 0 && s.X == slots[prior.value.row][prior.value.col].X
       else s.isFirst == 1 && s.X == Some(Buf(row, u.col)) && !IsTemp(u.name) && u.name in fields
  }

  ghost predicate Used(uses: seq<Use>, m: nat, c: nat)
    requires m <= |uses|
  {
    exists j :: 0 <= j < m && uses[j].col == c
  }

  /** The first `m` fields of row `row` are in place, and its other slots untouched. */
  ghost predicate RowOK(slots: Rows, row: nat, uses: seq<Use>, m: nat, fields: set<string>)
    requires row < |slots| && Shaped(slots) && m <= |uses|
  {
    && (forall j :: 0 <= j < m ==> uses[j].col < 4)
    && (forall j {:trigger UseOK(slots, row, uses[j], fields)} :: 0 <= j < m ==> UseOK(slots, row, uses[j], fields))
    && (forall c {:trigger Used(uses, m, c)} :: 0 <= c < 4 && !Used(uses, m, c) ==> slots[row][c] == ZERO_SLOT)
  }

  ghost predicate RowsOK(us: seq<seq<Use>>, slots: Rows, n: nat, fields: set<string>) {
    && n <= |us| == |slots| && Shaped(slots)
    && (forall i :: 0 <= i < n ==> RowOK(slots, i, us[i], |us[i]|, fields))
    && (forall i, c :: n <= i < |slots| && 0 <= c < 4 ==> slots[i][c] == ZERO_SLOT)
  }

  /** Earlier rows decide the last match. */
  lemma {:induction false} LastMatchAgrees(slots: Rows, other: Rows, n: nat, name: string, isTemp: int)
    requires Shaped(slots) && Shaped(other) && n <= |slots| == |other|
    requires forall i :: 0 <= i < n ==> slots[i] == other[i]
    ensures LastMatch(slots, n, name, isTemp) == LastMatch(other, n, name, isTemp)
  {
    if n > 0 { LastMatchAgrees(slots, other, n - 1, name, isTemp); }
  }

  /** A row that is still being read does not match anything. */
  lemma OpenRowSilent(slots: Rows, row: nat, uses: seq<Use>, m: nat, fields: set<string>, name: string, isTemp: int)
    requires row < |slots| && Shaped(slots) && m <= |uses| && RowOK(slots, row, uses, m, fields)
    requires forall j :: 0 <= j < m ==> !uses[j].write
    ensures LastMatch(slots, row + 1, name, isTemp) == LastMatch(slots, row, name, isTemp)
  {
    forall c | 0 <= c < 3 ensures slots[row][c].isWrite != 1 {
      if Used(uses, m, c) {
        var j :| 0 <= j < m && uses[j].col == c;
        assert UseOK(slots, row, uses[j], fields);
      }
    }
  }

  lemma UseStable(slots: Rows, other: Rows, row: nat, u: Use, fields: set<string>)
    requires Shaped(slots) && Shaped(other) && row < |slots| == |other| && u.col < 4
    requires forall i :: 0 <= i < row ==> slots[i] == other[i]
    requires slots[row][u.col] == other[row][u.col] && UseOK(slots, row, u, fields)
    ensures UseOK(other, row, u, fields)
  {
    LastMatchAgrees(slots, other, row, u.name, TempFlag(u.name));
  }

  lemma PutUse(p: Rows, r: Rows, row: nat, uses: seq<Use>, m: nat, fields: set<string>)
    requires row < |p| && Shaped(p) && m < |uses| && uses[m].col < 4
    requires RowOK(p, row, uses, m, fields) && Accepts(p, row, uses[m], fields)
    requires forall j :: 0 <= j < m ==> !uses[j].write && uses[j].col < uses[m].col
    requires r == Put(p, row, uses[m].col, Resolved(p, row, uses[m]))
    ensures OnlyRow(p, r, row) && RowOK(r, row, uses, m + 1, fields)
  {
    var u := uses[m];
    assert forall c :: 0 <= c < 4 && c != u.col ==> r[row][c] == p[row][c];
    OpenRowSilent(p, row, uses, m, fields, u.name, TempFlag(u.name));
    LastMatchAgrees(p, r, row, u.name, TempFlag(u.name));
    assert UseOK(r, row, u, fields);
    forall j | 0 <= j < m ensures UseOK(r, row, uses[j], fields) {
      UseStable(p, r, row, uses[j], fields);
    }
    forall c | 0 <= c < 4 && !Used(uses, m + 1, c) ensures r[row][c] == ZERO_SLOT {
      assert uses[m].col != c;
      assert !Used(uses, m, c);
    }
  }

  ghost predicate OnlyRow(p: Rows, r: Rows, row: nat) {
    |r| == |p| && forall i :: 0 <= i < |p| && i != row ==> r[i] == p[i]
  }

  lemma {:induction false} ProcUsesRow(slots: Rows, row: nat, uses: seq<Use>, m: nat, fields: set<string>, r: Rows)
    requires row < |slots| && Shaped(slots) && m <= |uses| && LeftToRight(uses)
    requires forall c :: 0 <= c < 4 ==> slots[row][c] == ZERO_SLOT
    requires ProcUses(slots, row, uses, m, fields) == Some(r)
    ensures OnlyRow(slots, r, row) && Shaped(r) && RowOK(r, row, uses, m, fields)
  {
    if m > 0 {
      var k := m - 1;
      var p := ProcUsesUnfold(slots, row, uses, k, m, fields, r);
      ProcUsesRow(slots, row, uses, k, fields, p);
      ProcUsesStep(slots, row, uses, k, m, fields, p, r);
    }
  }

  /** One field is accepted and its slot filled. */
  ghost predicate Processed(p: Rows, row: nat, u: Use, fields: set<string>, r: Rows)
    requires row < |p| && Shaped(p)
  {
    Accepts(p, row, u, fields) && r == Put(p, row, u.col, Resolved(p, row, u))
  }

  lemma ProcUsesStep(slots: Rows, row: nat, uses: seq<Use>, m: nat, n: nat, fields: set<string>, p: Rows, r: Rows)
    requires row < |slots| && Shaped(p) && n == m + 1 <= |uses| && LeftToRight(uses) && OnlyRow(slots, p, row)
    requires RowOK(p, row, uses, m, fields)
    requires Processed(p, row, uses[m], fields, r)
    ensures OnlyRow(slots, r, row) && Shaped(r) && RowOK(r, row, uses, n, fields)
  {
    PutUse(p, r, row, uses, m, fields);
  }

  lemma ProcUsesUnfold(slots: Rows, row: nat, uses: seq<Use>, m: nat, n: nat, fields: set<string>,
                       r: Rows) returns (p: Rows)
    requires row < |slots| && Shaped(slots) && n == m + 1 <= |uses| && ProcUses(slots, row, uses, n, fields) == Some(r)
    ensures ProcUses(slots, row, uses, m, fields) == Some(p) && |p| == |slots| && Shaped(p)
    ensures Processed(p, row, uses[m], fields, r)
  {
    p := ProcUses(slots, row, uses, m, fields).value;
  }

  lemma RowsStep(us: seq<seq<Use>>, p: Rows, r: Rows, n: nat, fields: set<string>)
    requires n < |us| && RowsOK(us, p, n, fields) && LeftToRight(us[n])
    requires ProcUses(p, n, us[n], |us[n]|, fields) == Some(r)
    ensures RowsOK(us, r, n + 1, fields)
  {
    ProcUsesRow(p, n, us[n], |us[n]|, fields, r);
    forall i | 0 <= i < n ensures RowOK(r, i, us[i], |us[i]|, fields) {
      RowStable(p, r, i, us[i], fields);
    }
  }

  /** Every accepted program has all its fields resolved this way. */
  lemma {:induction false} CheckedRows(us: seq<seq<Use>>, fit: seq<bool>, n: nat, fields: set<string>)
    requires n <= |us| == |fit| && Check(us, fit, n, fields).Some?
    requires forall i :: 0 <= i < |us| ==> LeftToRight(us[i])
    ensures RowsOK(us, Check(us, fit, n, fields).value, n, fields)
  {
    if n > 0 {
      var m := n - 1;
      CheckUnfold(us, fit, m, n, fields);
      CheckedRows(us, fit, m, fields);
      RowsStep(us, Check(us, fit, m, fields).value, Check(us, fit, n, fields).value, m, fields);
    }
  }

  lemma CheckUnfold(us: seq<seq<Use>>, fit: seq<bool>, m: nat, n: nat, fields: set<string>)
    requires n == m + 1 <= |us| == |fit| && Check(us, fit, n, fields).Some?
    ensures Check(us, fit, m, fields).Some?
    ensures ProcUses(Check(us, fit, m, fields).value, m, us[m], |us[m]|, fields) == Check(us, fit, n, fields)
  {}

  lemma AllLeftToRight(prog: seq<Stmt>, tbl: string)
    ensures forall i :: 0 <= i < |prog| ==> LeftToRight(AllUses(prog, tbl)[i])
  {
    forall i | 0 <= i < |prog| ensures LeftToRight(AllUses(prog, tbl)[i]) { UsesShape(prog[i], tbl); }
  }

  lemma RowStable(slots: Rows, other: Rows, row: nat, uses: seq<Use>, fields: set<string>)
    requires Shaped(slots) && Shaped(other) && row < |slots| == |other|
    requires forall i :: 0 <= i <= row ==> slots[i] == other[i]
    requires RowOK(slots, row, uses, |uses|, fields)
    ensures RowOK(other, row, uses, |uses|, fields)
  {
    forall j | 0 <= j < |uses| ensures uses[j].col < 4 && UseOK(other, row, uses[j], fields) {
      UseStable(slots, other, row, uses[j], fields);
    }
  }

  // ----- single assignment

  /** Slot (i, c) writes `name`. */
  ghost predicate Writes(slots: Rows, i: nat, c: nat, name: string)
    requires Shaped(slots)
  {
    i < |slots| && c < 4 && Matches(slots[i][c], name, TempFlag(name))
  }

  /** A filled slot belongs to one of its statement's fields. */
  lemma SlotOfUse(us: seq<seq<Use>>, slots: Rows, fields: set<string>, i: nat, c: nat) returns (j: nat)
    requires RowsOK(us, slots, |us|, fields) && i < |us| && c < 4 && slots[i][c] != ZERO_SLOT
    ensures j < |us[i]| && us[i][j].col == c && UseOK(slots, i, us[i][j], fields)
  {
    assert RowOK(slots, i, us[i], |us[i]|, fields);
    assert Used(us[i], |us[i]|, c);
    j :| 0 <= j < |us[i]| && us[i][j].col == c;
  }

  /** A name written in slots 0 to 2 is not written again. */
  lemma WrittenOnce(us: seq<seq<Use>>, slots: Rows, fields: set<string>, p: nat, q: nat, p': nat, q': nat, name: string)
    requires RowsOK(us, slots, |us|, fields)
    requires q < 3 && Writes(slots, p, q, name) && Writes(slots, p', q', name)
    ensures p' <= p
  {
    var j := SlotOfUse(us, slots, fields, p', q');
  }

  /** A field that is read is the table's own, or was written by an earlier statement under the same name. */
  lemma ReadAfterWrite(us: seq<seq<Use>>, slots: Rows, fields: set<string>, i: nat, j: nat)
    requires RowsOK(us, slots, |us|, fields) && i < |us| && j < |us[i]| && !us[i][j].write
    ensures var u := us[i][j]; u.col < 4 && slots[i][u.col].X.Some?
    ensures var u := us[i][j]; var x := slots[i][u.col].X.value;
      if slots[i][u.col].isFirst == 1 then x == Buf(i, u.col) && !IsTemp(u.name) && u.name in fields
      else x.row < i && x.col < 3 && Writes(slots, x.row, x.col, u.name)
    ensures var u := us[i][j]; slots[i][u.col].isFirst == 1 ==> forall p: nat, q: nat :: p < i && q < 3 ==>
        !Writes(slots, p, q, u.name)
  {
    var u := us[i][j];
    assert RowOK(slots, i, us[i], |us[i]|, fields);
    assert UseOK(slots, i, u, fields);
    var prior := LastMatch(slots, i, u.name, TempFlag(u.name));
    if prior.Some? {
      var k := SlotOfUse(us, slots, fields, prior.value.row, prior.value.col);
    }
  }

  // ----- releasing

  /** The slot that allocated its buffer, rather than sharing another's. */
  predicate Owns(s: Slot) { s.isFirst == 1 && s.X.Some? }

  /** What release_comp_expr frees or unmaps. */
  predicate Releases(s: Slot) {
    if s.isTemp == 1 then s.isWrite != 0 && s.X.Some?
    else if s.isWrite == 1 then s.X.Some?
    else s.isFirst == 1 && s.X.Some?
  }

  ghost predicate Before(a: Buf, b: Buf) {
    a.row < b.row || (a.row == b.row && a.col < b.col)
  }

  ghost predicate Increasing(bs: seq<Buf>) {
    forall i, j :: 0 <= i < j < |bs| ==> Before(bs[i], bs[j])
  }

  lemma OwnersRelease(us: seq<seq<Use>>, slots: Rows, fields: set<string>, i: nat, c: nat)
    requires RowsOK(us, slots, |us|, fields) && i < |us| && c < 4
    ensures Releases(slots[i][c]) <==> Owns(slots[i][c])
    ensures Owns(slots[i][c]) ==> slots[i][c].X == Some(Buf(i, c))
  {
    if slots[i][c] != ZERO_SLOT {
      var j := SlotOfUse(us, slots, fields, i, c);
    }
  }

  /** The buffers released in row-major order among slots 0 to 2: each owner's exactly once, and nobody else's. */
  method ReleaseCompExpr(slots: Rows, ghost us: seq<seq<Use>>, ghost fields: set<string>) returns (freed: seq<Buf>)
    requires RowsOK(us, slots, |us|, fields)
    ensures Increasing(freed)
    ensures forall b :: b in freed <==> b.row < |slots| && b.col < 3 && Owns(slots[b.row][b.col])
  {
    freed := [];
    for i := 0 to |slots|
      invariant Increasing(freed)
      invariant forall b :: b in freed ==> b.row < i
      invariant forall b :: b in freed <==> b.row < i && b.col < 3 && Owns(slots[b.row][b.col])
    {
      for j := 0 to 3
        invariant Increasing(freed)
        invariant forall b :: b in freed ==> b.row < i || (b.row == i && b.col < j)
        invariant forall b :: b in freed <==>
            (b.row < i || (b.row == i && b.col < j)) && b.col < 3 && Owns(slots[b.row][b.col])
      {
        OwnersRelease(us, slots, fields, i, j);
        if Releases(slots[i][j]) {
          ghost var was := freed;
          freed := freed + [slots[i][j].X.value];
          assert forall b :: b in freed <==> b in was || b == Buf(i, j);
        }
      }
    }
  }

  /** The mapping of a countf output, kept in slot 3, is owned but never released. */
  lemma CountFLeaks(us: seq<seq<Use>>, slots: Rows, fields: set<string>, i: nat, j: nat, freed: seq<Buf>)
    requires RowsOK(us, slots, |us|, fields) && i < |us| && j < |us[i]| && us[i][j].write && us[i][j].col == 3
    requires forall b :: b in freed <==> b.row < |slots| && b.col < 3 && Owns(slots[b.row][b.col])
    ensures Owns(slots[i][3]) && slots[i][3].X.value !in freed
  {
    assert RowOK(slots, i, us[i], |us[i]|, fields);
    assert UseOK(slots, i, us[i][j], fields);
  }
}
