/**
 Which compound programs the checker accepts (q-base/src/compound.c:107-134,
 388-666), in terms of their names alone.
 */
module CompoundAccepts {
  import opened CompoundSpec
  import opened CompoundLaws
  import opened CompoundCheck

  /** The field that a statement makes. */
  function Output(s: Stmt): Option<string> {
    match s
    case F1OpF2(_, _, f2) => Some(f2)
    case F1S1OpF2(_, _, _, f2) => Some(f2)
    case F1F2OpF3(_, _, _, f3) => Some(f3)
    case FToS(_, _, _) => None
    case F1F2ToS(_, _, _) => None
    case Count(_, _, _, f3) => Some(f3)
    case CountF(_, _, _, _, f4) => Some(f4)
  }

  /** An earlier statement makes this field; what a countf makes is not looked at. */
  ghost predicate Made(prog: seq<Stmt>, i: nat, name: string)
    requires i <= |prog|
  {
    exists p :: 0 <= p < i && Output(prog[p]) == Some(name) && !prog[p].CountF?
  }

  /**
   The names have 1 to 31 characters.  What is read was made before or is a
   field of the table, and then no temporary; what is written was not made
   before; counts go to an existing other table.
   */
  ghost predicate Fits(prog: seq<Stmt>, i: nat, tbl: string, fields: set<string>, sizes: map<string, nat>)
    requires i < |prog|
  {
    var s := prog[i];
    && (forall name :: name in Inputs(s) ==>
          1 <= |name| <= 31 && (Made(prog, i, name) || (name in fields && name[|name|-1] != '\'')))
    && (Output(s).Some? ==> 1 <= |Output(s).value| <= 31 && !Made(prog, i, Output(s).value))
    && (s.Count? || s.CountF? ==> s.otbl in sizes && s.otbl != tbl)
  }

  // ----- in terms of the uses

  /** An earlier use in slots 0 to 2 writes the name. */
  ghost predicate Defined(us: seq<seq<Use>>, i: nat, name: string)
    requires i <= |us|
  {
    exists p, q :: 0 <= p < i && 0 <= q < |us[p]| && Defines(us[p][q], name)
  }

  predicate Defines(u: Use, name: string) { u.write && u.col < 3 && u.name == name }

  ghost predicate UseFits(us: seq<seq<Use>>, i: nat, u: Use, fields: set<string>)
    requires i <= |us|
  {
    NameOK(u.name) &&
    if u.write then !Defined(us, i, u.name) else Defined(us, i, u.name) || (!IsTemp(u.name) && u.name in fields)
  }

  ghost predicate UsesFit(us: seq<seq<Use>>, i: nat, m: nat, fields: set<string>)
    requires i < |us| && m <= |us[i]|
  {
    forall j :: 0 <= j < m ==> UseFits(us, i, us[i][j], fields)
  }

  /** The search among the slots finds the writes among the uses. */
  lemma MatchIsDefined(us: seq<seq<Use>>, slots: Rows, n: nat, i: nat, fields: set<string>, name: string)
    requires RowsOK(us, slots, n, fields) && i <= n
    ensures LastMatch(slots, i, name, TempFlag(name)).Some? <==> Defined(us, i, name)
  {
    var r := LastMatch(slots, i, name, TempFlag(name));
    if r.Some? {
      var row, col := r.value.row, r.value.col;
      assert RowOK(slots, row, us[row], |us[row]|, fields);
      assert Used(us[row], |us[row]|, col);
      var j :| 0 <= j < |us[row]| && us[row][j].col == col;
      assert UseOK(slots, row, us[row][j], fields);
      assert Defines(us[row][j], name);
    }
    if Defined(us, i, name) {
      var p, q :| 0 <= p < i && 0 <= q < |us[p]| && Defines(us[p][q], name);
      assert RowOK(slots, p, us[p], |us[p]|, fields);
      assert UseOK(slots, p, us[p][q], fields);
      assert Matches(slots[p][us[p][q].col], name, TempFlag(name));
    }
  }

  /** One more field of statement `i`. */
  lemma OneUse(us: seq<seq<Use>>, was: Rows, p: Rows, i: nat, m: nat, fields: set<string>)
    requires i < |us| && RowsOK(us, was, i, fields) && LeftToRight(us[i]) && m < |us[i]|
    requires OnlyRow(was, p, i) && Shaped(p) && RowOK(p, i, us[i], m, fields)
    ensures Accepts(p, i, us[i][m], fields) <==> UseFits(us, i, us[i][m], fields)
  {
    var u := us[i][m];
    OpenRowSilent(p, i, us[i], m, fields, u.name, TempFlag(u.name));
    LastMatchAgrees(was, p, i, u.name, TempFlag(u.name));
    MatchIsDefined(us, was, i, i, fields, u.name);
  }

  lemma {:induction false} StatementAccepted(us: seq<seq<Use>>, was: Rows, i: nat, m: nat, fields: set<string>)
    requires i < |us| && RowsOK(us, was, i, fields) && LeftToRight(us[i]) && m <= |us[i]|
    ensures ProcUses(was, i, us[i], m, fields).Some? <==> UsesFit(us, i, m, fields)
  {
    if m > 0 {
      var k := m - 1;
      StatementAccepted(us, was, i, k, fields);
      var p := ProcUses(was, i, us[i], k, fields);
      if p.Some? {
        ProcUsesRow(was, i, us[i], k, fields, p.value);
        OneUse(us, was, p.value, i, k, fields);
      }
      assert UsesFit(us, i, m, fields) <==> UsesFit(us, i, k, fields) && UseFits(us, i, us[i][k], fields);
    }
  }

  lemma {:induction false} CheckAccepts(us: seq<seq<Use>>, fit: seq<bool>, n: nat, fields: set<string>)
    requires n <= |us| == |fit| && forall i :: 0 <= i < |us| ==> LeftToRight(us[i])
    ensures Check(us, fit, n, fields).Some? <==>
        forall i :: 0 <= i < n ==> fit[i] && UsesFit(us, i, |us[i]|, fields)
  {
    if n > 0 {
      var k := n - 1;
      CheckAccepts(us, fit, k, fields);
      if Check(us, fit, k, fields).Some? {
        CheckedRows(us, fit, k, fields);
        StatementAccepted(us, Check(us, fit, k, fields).value, k, |us[k]|, fields);
      }
    }
  }

  // ----- and of the statements

  /** The reads of a statement are its inputs, its only write is its output. */
  lemma UsesAre(s: Stmt, tbl: string, name: string)
    ensures (exists j :: 0 <= j < |Uses(s, tbl)| && !Uses(s, tbl)[j].write && Uses(s, tbl)[j].name == name) <==>
        name in Inputs(s)
    ensures (exists j :: 0 <= j < |Uses(s, tbl)| && Uses(s, tbl)[j].write && Uses(s, tbl)[j].name == name) <==>
        Output(s) == Some(name)
    ensures (exists j :: 0 <= j < |Uses(s, tbl)| && Defines(Uses(s, tbl)[j], name)) <==>
        Output(s) == Some(name) && !s.CountF?
  {
    var us := Uses(s, tbl);
    forall k | 0 <= k < |Inputs(s)| ensures k < |us| && !us[k].write && us[k].name == Inputs(s)[k] {}
    var last := |us| - 1;
    assert Output(s).Some? <==> us[last].write;
  }

  lemma DefinedIsMade(prog: seq<Stmt>, tbl: string, i: nat, name: string)
    requires i <= |prog|
    ensures Defined(AllUses(prog, tbl), i, name) <==> Made(prog, i, name)
  {
    var all := AllUses(prog, tbl);
    if Defined(all, i, name) {
      var p, q :| 0 <= p < i && 0 <= q < |all[p]| && Defines(all[p][q], name);
      UsesAre(prog[p], tbl, name);
      assert Output(prog[p]) == Some(name) && !prog[p].CountF?;
    }
    if Made(prog, i, name) {
      var p :| 0 <= p < i && Output(prog[p]) == Some(name) && !prog[p].CountF?;
      UsesAre(prog[p], tbl, name);
      var q :| 0 <= q < |Uses(prog[p], tbl)| && Defines(Uses(prog[p], tbl)[q], name);
      assert Defines(all[p][q], name);
    }
  }

  lemma FitsIs(prog: seq<Stmt>, i: nat, tbl: string, fields: set<string>, sizes: map<string, nat>)
    requires i < |prog|
    ensures Fits(prog, i, tbl, fields, sizes) <==>
        OutTableOK(prog[i], tbl, sizes) && UsesFit(AllUses(prog, tbl), i, |AllUses(prog, tbl)[i]|, fields)
  {
    var us := Uses(prog[i], tbl);
    forall name
      ensures Defined(AllUses(prog, tbl), i, name) <==> Made(prog, i, name)
    {
      DefinedIsMade(prog, tbl, i, name);
    }
    forall name {:trigger name in Inputs(prog[i])} | name in Inputs(prog[i])
      ensures exists j :: 0 <= j < |us| && !us[j].write && us[j].name == name
    {
      UsesAre(prog[i], tbl, name);
    }
    forall j | 0 <= j < |us|
      ensures if us[j].write then Output(prog[i]) == Some(us[j].name) else us[j].name in Inputs(prog[i])
    {
      UsesAre(prog[i], tbl, us[j].name);
    }
    if Output(prog[i]).Some? { UsesAre(prog[i], tbl, Output(prog[i]).value); }
  }

  /** chk_comp_expr accepts exactly the programs of 2 to 32 statements whose statements all fit. */
  lemma AcceptedExactly(prog: seq<Stmt>, tbl: string, fields: set<string>, sizes: map<string, nat>)
    ensures CheckProgram(prog, tbl, fields, sizes).Some? <==>
        2 <= |prog| <= 32 && forall i :: 0 <= i < |prog| ==> Fits(prog, i, tbl, fields, sizes)
  {
    var us, fit := AllUses(prog, tbl), AllFit(prog, tbl, sizes);
    AllLeftToRight(prog, tbl);
    CheckAccepts(us, fit, |prog|, fields);
    forall i | 0 <= i < |prog|
      ensures Fits(prog, i, tbl, fields, sizes) <==> fit[i] && UsesFit(us, i, |us[i]|, fields)
    {
      FitsIs(prog, i, tbl, fields, sizes);
    }
  }
}
