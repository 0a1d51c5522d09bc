/**
 What the loader computes: a text is loaded without error exactly when it is
 a table of well-formed cells written out row by row, and then every column
 holds its cells.
 */
module LoaderMeaning {
  import opened Loader
  import opened Arithmetic

  /** The column of cell number `k` when cells come row by row. */
  function ColAt(n: nat, k: nat): (c: nat)
    requires n > 0
    ensures c < n
  {
    if k == 0 then 0 else NextCol(n, ColAt(n, k - 1))
  }

  function Terminator(cfg: Config, c: nat): char {
    if c + 1 == |cfg.kinds| then '\n' else cfg.sep
  }

  /** The text of the cells, each followed by the separator or, in the last column, by a newline. */
  function Emit(cfg: Config, cells: seq<string>): string
    requires GoodConfig(cfg)
  {
    if cells == [] then ""
    else
      var k := |cells| - 1;
      Emit(cfg, cells[..k]) + cells[k] + [Terminator(cfg, ColAt(|cfg.kinds|, k))]
  }

  /** The cells of column `c`. */
  function Column(n: nat, cells: seq<string>, c: nat): seq<string>
    requires n > 0
  {
    if cells == [] then []
    else
      var k := |cells| - 1;
      Column(n, cells[..k], c) + if ColAt(n, k) == c then [cells[k]] else []
  }

  function Converted(k: Kind, texts: seq<string>): (r: seq<Cell>)
    ensures |r| == |texts|
  {
    seq(|texts|, i requires 0 <= i < |texts| => Convert(k, CString(texts[i])))
  }

  function Flags(texts: seq<string>): (r: seq<bool>)
    ensures |r| == |texts|
  {
    seq(|texts|, i requires 0 <= i < |texts| => CString(texts[i]) != "")
  }

  predicate Clean(cfg: Config, s: string) {
    cfg.sep !in s && '\n' !in s
  }

  ghost predicate CellOK(cfg: Config, c: nat, cell: string) {
    c < |cfg.kinds| && Clean(cfg, cell) && |cell| < BUFSIZE && Loadable(cfg.kinds[c], cell)
  }

  /** A text, or a number that is empty or converts; only what stands before the first NUL is looked at. */
  ghost predicate Loadable(k: Kind, raw: string) {
    exists text: string :: TextOf(raw, text) &&
      match k
      case Number(conv) => text == "" || conv(text).Bits?
      case Text => true
      case Unsupported => false
  }

  lemma {:induction false} TextUnique(raw: string, text: string)
    requires TextOf(raw, text)
    ensures text == CString(raw)
  {
    if raw != "" && raw[0] != NUL {
      assert text != "";
      TextUnique(raw[1..], text[1..]);
      assert text == [raw[0]] + text[1..];
    }
  }

  lemma LoadableIs(k: Kind, raw: string)
    ensures Loadable(k, raw) <==> Converts(k, CString(raw))
  {
    forall text | TextOf(raw, text) ensures text == CString(raw) { TextUnique(raw, text); }
  }

  /**
   What the file of a column and its file of flags get for the cell `raw`: the
   converted number with flag 1, zero with flag 0 for an empty one, a line
   for a text.
   */
  ghost predicate CellLoads(k: Kind, raw: string, cell: Cell, flag: bool) {
    exists text: string :: TextOf(raw, text) &&
      match k
      case Number(conv) =>
        if text == "" then cell == Fixed(0) && !flag
        else conv(text).Bits? && cell == Fixed(conv(text).bits) && flag
      case Text => cell == Line(text) && flag == (text != "")
      case Unsupported => false
  }

  lemma ConvertedLoads(k: Kind, raw: string)
    requires Converts(k, CString(raw))
    ensures CellLoads(k, raw, Convert(k, CString(raw)), CString(raw) != "")
  {}

  ghost predicate CellsOK(cfg: Config, cells: seq<string>)
    requires GoodConfig(cfg)
  {
    forall k :: 0 <= k < |cells| ==> CellOK(cfg, ColAt(|cfg.kinds|, k), cells[k])
  }

  /** The state in which the loader has taken `cells` and stands after `rest` of the next one. */
  ghost predicate Holds(cfg: Config, cells: seq<string>, rest: string, st: State)
    requires GoodConfig(cfg)
  {
    && Shaped(cfg, st) && st.status == 0 && st.buf == rest && st.col == ColAt(|cfg.kinds|, |cells|)
    && forall c {:trigger HoldsAt(cfg, cells, st, c)} :: 0 <= c < |cfg.kinds| ==> HoldsAt(cfg, cells, st, c)
  }

  /** Column `c`: its cells, their null flags, and whether there was a null. */
  ghost predicate HoldsAt(cfg: Config, cells: seq<string>, st: State, c: nat)
    requires Shaped(cfg, st) && c < |cfg.kinds|
  {
    var texts := Column(|cfg.kinds|, cells, c);
    && st.bin[c] == Converted(cfg.kinds[c], texts)
    && st.nn[c] == Flags(texts)
    && (st.hasNull[c] <==> exists i :: 0 <= i < |texts| && CString(texts[i]) == "")
  }

  lemma StartHolds(cfg: Config)
    requires GoodConfig(cfg)
    ensures Holds(cfg, [], "", Start(cfg))
  {
    forall c | 0 <= c < |cfg.kinds| ensures HoldsAt(cfg, [], Start(cfg), c) {}
  }

  /** A byte of a cell. */
  lemma ByteHolds(cfg: Config, cells: seq<string>, rest: string, st: State, b: char)
    requires GoodConfig(cfg) && Holds(cfg, cells, rest, st) && |rest| < BUFSIZE && b != cfg.sep && b != '\n'
    ensures Holds(cfg, cells, rest + [b], Step(cfg, st, b))
  {
    var now := Step(cfg, st, b);
    forall c | 0 <= c < |cfg.kinds| ensures HoldsAt(cfg, cells, now, c) {
      assert HoldsAt(cfg, cells, st, c);
    }
  }

  /** The byte that ends a cell. */
  lemma CellHolds(cfg: Config, cells: seq<string>, rest: string, st: State)
    requires GoodConfig(cfg) && Holds(cfg, cells, rest, st) && |rest| < BUFSIZE
    requires Converts(cfg.kinds[st.col], CString(rest))
    ensures Holds(cfg, cells + [rest], "", Step(cfg, st, Terminator(cfg, st.col)))
  {
    var now, more := Step(cfg, st, Terminator(cfg, st.col)), cells + [rest];
    assert now == AddCell(cfg, st);
    assert more[..|cells|] == cells;
    forall c | 0 <= c < |cfg.kinds| ensures HoldsAt(cfg, more, now, c) {
      assert HoldsAt(cfg, cells, st, c);
      ColumnGrows(cfg, cells, rest, st, now, c);
    }
  }

  lemma ColumnGrows(cfg: Config, cells: seq<string>, rest: string, st: State, now: State, c: nat)
    requires GoodConfig(cfg) && Shaped(cfg, st) && Shaped(cfg, now) && c < |cfg.kinds|
    requires st.col == ColAt(|cfg.kinds|, |cells|)
    requires HoldsAt(cfg, cells, st, c) && now == AddCell(cfg, st) && st.buf == rest
    requires Converts(cfg.kinds[st.col], CString(rest))
    ensures HoldsAt(cfg, cells + [rest], now, c)
  {
    var n, more := |cfg.kinds|, cells + [rest];
    assert more[..|cells|] == cells;
    var was, texts := Column(n, cells, c), Column(n, more, c);
    if st.col == c {
      assert texts == was + [rest];
      assert now.bin[c] == Converted(cfg.kinds[c], texts);
      assert now.nn[c] == Flags(texts);
      NullGrows(was, rest);
    } else {
      assert texts == was;
    }
  }

  lemma NullGrows(was: seq<string>, rest: string)
    ensures (exists i :: 0 <= i < |was + [rest]| && CString((was + [rest])[i]) == "") <==>
        (exists i :: 0 <= i < |was| && CString(was[i]) == "") || CString(rest) == ""
  {
    var texts := was + [rest];
    if exists i :: 0 <= i < |was| && CString(was[i]) == "" {
      var i :| 0 <= i < |was| && CString(was[i]) == "";
      assert texts[i] == was[i];
    }
    if CString(rest) == "" { assert texts[|was|] == rest; }
  }

  // ----- loading what was written

  lemma {:induction false} RestHolds(cfg: Config, cells: seq<string>, rest: string, st: State)
    requires GoodConfig(cfg) && Holds(cfg, cells, "", st) && Clean(cfg, rest) && |rest| <= BUFSIZE
    ensures Holds(cfg, cells, rest, Run(cfg, st, rest))
    decreases |rest|
  {
    if rest != "" {
      var r', z := rest[..|rest|-1], rest[|rest|-1];
      assert rest == r' + [z];
      RestHolds(cfg, cells, r', st);
      ByteHolds(cfg, cells, r', Run(cfg, st, r'), z);
    }
  }

  lemma CellConverts(cfg: Config, cells: seq<string>, k: nat)
    requires GoodConfig(cfg) && CellsOK(cfg, cells) && k < |cells|
    ensures Clean(cfg, cells[k]) && |cells[k]| < BUFSIZE
    ensures Converts(cfg.kinds[ColAt(|cfg.kinds|, k)], CString(cells[k]))
  {
    assert CellOK(cfg, ColAt(|cfg.kinds|, k), cells[k]);
    LoadableIs(cfg.kinds[ColAt(|cfg.kinds|, k)], cells[k]);
  }

  /** One cell and its terminator. */
  lemma NextHolds(cfg: Config, cells: seq<string>, cell: string, head: string, z: char)
    requires GoodConfig(cfg) && Clean(cfg, cell) && |cell| < BUFSIZE
    requires z == Terminator(cfg, ColAt(|cfg.kinds|, |cells|))
    requires Converts(cfg.kinds[ColAt(|cfg.kinds|, |cells|)], CString(cell))
    requires Holds(cfg, cells, "", Run(cfg, Start(cfg), head))
    ensures Holds(cfg, cells + [cell], "", Run(cfg, Start(cfg), head + cell + [z]))
  {
    var st := Run(cfg, Start(cfg), head);
    RestHolds(cfg, cells, cell, st);
    CellHolds(cfg, cells, cell, Run(cfg, st, cell));
    RunCell(cfg, head, cell, z);
  }

  lemma LastHolds(cfg: Config, cells: seq<string>, k: nat, head: string, z: char)
    requires GoodConfig(cfg) && CellsOK(cfg, cells) && |cells| == k + 1 && z == Terminator(cfg, ColAt(|cfg.kinds|, k))
    requires Holds(cfg, cells[..k], "", Run(cfg, Start(cfg), head))
    ensures Holds(cfg, cells, "", Run(cfg, Start(cfg), head + cells[k] + [z]))
  {
    CellConverts(cfg, cells, k);
    var first := cells[..k];
    assert cells == first + [cells[k]];
    NextHolds(cfg, first, cells[k], head, z);
  }

  lemma {:induction false} EmitHolds(cfg: Config, cells: seq<string>)
    requires GoodConfig(cfg) && CellsOK(cfg, cells)
    ensures Holds(cfg, cells, "", Run(cfg, Start(cfg), Emit(cfg, cells)))
    decreases |cells|
  {
    if cells == [] {
      StartHolds(cfg);
    } else {
      var k := |cells| - 1;
      EmitHolds(cfg, cells[..k]);
      LastHolds(cfg, cells, k, Emit(cfg, cells[..k]), Terminator(cfg, ColAt(|cfg.kinds|, k)));
    }
  }

  lemma RunCell(cfg: Config, head: string, cell: string, z: char)
    requires GoodConfig(cfg)
    ensures Run(cfg, Start(cfg), head + cell + [z]) == Step(cfg, Run(cfg, Run(cfg, Start(cfg), head), cell), z)
  {
    RunConcat(cfg, Start(cfg), head, cell);
    var s := head + cell + [z];
    assert s[..|s|-1] == head + cell;
  }

  lemma ListingHolds(cfg: Config, cells: seq<string>, rest: string)
    requires GoodConfig(cfg) && CellsOK(cfg, cells) && Clean(cfg, rest) && |rest| <= BUFSIZE
    ensures Holds(cfg, cells, rest, Run(cfg, Start(cfg), Emit(cfg, cells) + rest))
  {
    EmitHolds(cfg, cells);
    RestHolds(cfg, cells, rest, Run(cfg, Start(cfg), Emit(cfg, cells)));
    RunConcat(cfg, Start(cfg), Emit(cfg, cells), rest);
  }

  // ----- and nothing else loads

  /** A text that loads without error is a row-by-row listing of cells. */
  lemma {:induction false} LoadedEmits(cfg: Config, s: string) returns (cells: seq<string>, rest: string)
    requires GoodConfig(cfg) && Run(cfg, Start(cfg), s).status >= 0
    ensures CellsOK(cfg, cells) && Clean(cfg, rest) && |rest| <= BUFSIZE && s == Emit(cfg, cells) + rest
    decreases |s|
  {
    if s == "" {
      cells, rest := [], "";
    } else {
      var s', z := s[..|s|-1], s[|s|-1];
      var st := Run(cfg, Start(cfg), s');
      cells, rest := LoadedEmits(cfg, s');
      assert s == s' + [z];
      ListingHolds(cfg, cells, rest);
      assert st.buf == rest && st.status == 0;
      if z == '\n' || z == cfg.sep {
        assert z == Terminator(cfg, st.col) && Converts(cfg.kinds[st.col], CString(rest));
        LoadableIs(cfg.kinds[st.col], rest);
        ExtendCells(cfg, cells, rest);
        cells, rest := cells + [rest], "";
      } else {
        rest := rest + [z];
      }
    }
  }

  lemma ExtendCells(cfg: Config, cells: seq<string>, cell: string)
    requires GoodConfig(cfg) && CellsOK(cfg, cells) && CellOK(cfg, ColAt(|cfg.kinds|, |cells|), cell)
    ensures CellsOK(cfg, cells + [cell])
    ensures Emit(cfg, cells + [cell]) + "" == Emit(cfg, cells) + cell + [Terminator(cfg, ColAt(|cfg.kinds|, |cells|))]
  {
    var now, k := cells + [cell], |cells|;
    assert now[..k] == cells && now[k] == cell;
  }

  /** Error-free exactly on such listings, for any division into chunks. */
  lemma LoadsExactly(cfg: Config, s: string)
    requires GoodConfig(cfg)
    ensures Run(cfg, Start(cfg), s).status >= 0 <==> exists cells, rest :: Listing(cfg, s, cells, rest)
  {
    if Run(cfg, Start(cfg), s).status >= 0 {
      var cells, rest := LoadedEmits(cfg, s);
      assert Listing(cfg, s, cells, rest);
    }
    forall cells, rest | Listing(cfg, s, cells, rest) ensures Run(cfg, Start(cfg), s).status >= 0 {
      ListingHolds(cfg, cells, rest);
    }
  }

  // ----- where the cells go

  /** Cell number `k` belongs to column k % n. */
  lemma {:induction false} ColAtClosed(n: nat, k: nat)
    requires n > 0
    ensures ColAt(n, k) == k % n
  {
    if k == 0 {
      QuotientUnique(0, 0, 0, n);
    } else {
      ColAtClosed(n, k - 1);
      NextCell(n, k - 1, k);
    }
  }

  lemma NextCell(n: nat, j: nat, k: nat)
    requires n > 0 && k == j + 1
    ensures j % n < n && k % n == (if j % n + 1 == n then 0 else j % n + 1)
    ensures k / n == (if j % n + 1 == n then j / n + 1 else j / n)
  {
    Division(j, n);
    if j % n + 1 == n {
      assert n * (j / n + 1) == n * (j / n) + n;
      QuotientUnique(k, j / n + 1, 0, n);
    } else {
      QuotientUnique(k, j / n, j % n + 1, n);
    }
  }

  /** Column `c` of `k` cells: one cell of every whole row, and one of the row under way if that is behind `c`. */
  lemma {:induction false} ColumnLength(n: nat, cells: seq<string>, c: nat)
    requires c < n
    ensures |Column(n, cells, c)| == |cells| / n + if c < |cells| % n then 1 else 0
  {
    if cells == [] {
      QuotientUnique(0, 0, 0, n);
    } else {
      var k := |cells| - 1;
      ColumnLength(n, cells[..k], c);
      ColAtClosed(n, k);
      NextCell(n, k, |cells|);
    }
  }

  /** Its cell in row `i`. */
  lemma {:induction false} ColumnAt(n: nat, cells: seq<string>, c: nat, i: nat)
    requires c < n && n * i + c < |cells|
    ensures i < |Column(n, cells, c)| && Column(n, cells, c)[i] == cells[n * i + c]
  {
    var k := |cells| - 1;
    if n * i + c < k {
      ColumnAt(n, cells[..k], c, i);
    } else {
      QuotientUnique(k, i, c, n);
      ColumnLength(n, cells[..k], c);
      ColAtClosed(n, k);
    }
  }

  /**
   The files after the cells and the rest of a text: cell n*i + c is entry `i`
   of column `c`, and there are no other entries.
   */
  ghost predicate Loaded(cfg: Config, cells: seq<string>, rest: string, st: State) {
    var n := |cfg.kinds|;
    && Shaped(cfg, st) && st.status == 0 && st.buf == rest && st.col == |cells| % n
    && (forall c {:trigger ColumnLoaded(cfg, cells, st, c)} :: 0 <= c < n ==> ColumnLoaded(cfg, cells, st, c))
  }

  ghost predicate ColumnLoaded(cfg: Config, cells: seq<string>, st: State, c: nat)
    requires Shaped(cfg, st) && c < |cfg.kinds|
  {
    var n := |cfg.kinds|;
    && |st.bin[c]| == |st.nn[c]| == |cells| / n + (if c < |cells| % n then 1 else 0)
    && (forall i {:trigger st.bin[c][i]} :: 0 <= i < |st.bin[c]| ==>
          n * i + c < |cells| && CellLoads(cfg.kinds[c], cells[n * i + c], st.bin[c][i], st.nn[c][i]))
    && (st.hasNull[c] <==> exists i :: 0 <= i < |st.nn[c]| && !st.nn[c][i])
  }

  lemma RowInside(n: nat, k: nat, c: nat, i: nat)
    requires c < n && i < k / n + if c < k % n then 1 else 0
    ensures n * i + c < k
  {
    Division(k, n);
    if i < k / n { MulMonotone(n, i + 1, k / n); }
  }

  lemma HoldsLoaded(cfg: Config, cells: seq<string>, rest: string, st: State)
    requires GoodConfig(cfg) && CellsOK(cfg, cells) && Holds(cfg, cells, rest, st)
    ensures Loaded(cfg, cells, rest, st)
  {
    ColAtClosed(|cfg.kinds|, |cells|);
    forall c | 0 <= c < |cfg.kinds| ensures ColumnLoaded(cfg, cells, st, c) {
      assert HoldsAt(cfg, cells, st, c);
      ColumnIsLoaded(cfg, cells, st, c);
    }
  }

  lemma ColumnIsLoaded(cfg: Config, cells: seq<string>, st: State, c: nat)
    requires GoodConfig(cfg) && CellsOK(cfg, cells) && Shaped(cfg, st) && c < |cfg.kinds| && HoldsAt(cfg, cells, st, c)
    ensures ColumnLoaded(cfg, cells, st, c)
  {
    var n := |cfg.kinds|;
    ColumnLength(n, cells, c);
    forall i | 0 <= i < |st.bin[c]|
      ensures n * i + c < |cells| && CellLoads(cfg.kinds[c], cells[n * i + c], st.bin[c][i], st.nn[c][i])
    {
      RowInside(n, |cells|, c, i);
      EntryLoads(cfg, cells, st, c, i, n * i + c);
    }
    assert forall i :: 0 <= i < |st.nn[c]| ==> (st.nn[c][i] <==> CString(Column(n, cells, c)[i]) != "");
  }

  lemma EntryLoads(cfg: Config, cells: seq<string>, st: State, c: nat, i: nat, k: nat)
    requires GoodConfig(cfg) && CellsOK(cfg, cells) && Shaped(cfg, st) && c < |cfg.kinds| && HoldsAt(cfg, cells, st, c)
    requires k == |cfg.kinds| * i + c < |cells| && i < |st.bin[c]|
    ensures CellLoads(cfg.kinds[c], cells[k], st.bin[c][i], st.nn[c][i])
  {
    var n := |cfg.kinds|;
    ColumnAt(n, cells, c, i);
    ColAtClosed(n, k);
    QuotientUnique(k, i, c, n);
    assert CellOK(cfg, ColAt(n, k), cells[k]);
    LoadableIs(cfg.kinds[c], cells[k]);
    ConvertedLoads(cfg.kinds[c], cells[k]);
  }

  /** `s` lists the cells row by row, each with its terminator, and goes on with `rest`. */
  ghost predicate Listing(cfg: Config, s: string, cells: seq<string>, rest: string)
    requires GoodConfig(cfg)
  {
    CellsOK(cfg, cells) && Clean(cfg, rest) && |rest| <= BUFSIZE && s == Emit(cfg, cells) + rest
  }

  /** Round trip: what was written as cells is loaded as those cells. */
  lemma LoadEmitted(cfg: Config, s: string, cells: seq<string>, rest: string)
    requires GoodConfig(cfg) && Listing(cfg, s, cells, rest)
    ensures Loaded(cfg, cells, rest, Run(cfg, Start(cfg), s))
  {
    ListingHolds(cfg, cells, rest);
    HoldsLoaded(cfg, cells, rest, Run(cfg, Start(cfg), s));
  }

  /** A load, in whatever chunks: error-free exactly on listings, and then the files hold the listed cells. */
  method Load(cfg: Config, chunks: seq<string>) returns (l: Loader)
    requires GoodConfig(cfg)
    ensures l.cfg == cfg && l.Valid()
    ensures l.status >= 0 <==> exists cells, rest :: Listing(cfg, Concat(chunks), cells, rest)
    ensures forall cells, rest :: Listing(cfg, Concat(chunks), cells, rest) ==> Loaded(cfg, cells, rest, l.Now())
  {
    l := new Loader(cfg);
    l.Feed(chunks);
    LoadsExactly(cfg, Concat(chunks));
    forall cells, rest | Listing(cfg, Concat(chunks), cells, rest) ensures Loaded(cfg, cells, rest, l.Now()) {
      LoadEmitted(cfg, Concat(chunks), cells, rest);
    }
  }

  /**
   After every byte of an error-free load all columns agree on the number of
   complete rows, and the row under way ends before the current column.
   */
  lemma ColumnsLevel(cfg: Config, s: string) returns (rows: nat)
    requires GoodConfig(cfg) && Run(cfg, Start(cfg), s).status >= 0
    ensures var st := Run(cfg, Start(cfg), s);
            forall c :: 0 <= c < |cfg.kinds| ==> |st.bin[c]| == |st.nn[c]| == rows + if c < st.col then 1 else 0
  {
    var cells, rest := LoadedEmits(cfg, s);
    LoadEmitted(cfg, s, cells, rest);
    rows := LoadedLevel(cfg, cells, rest, Run(cfg, Start(cfg), s));
  }

  lemma LoadedLevel(cfg: Config, cells: seq<string>, rest: string, st: State) returns (rows: nat)
    requires GoodConfig(cfg) && Loaded(cfg, cells, rest, st)
    ensures forall c :: 0 <= c < |cfg.kinds| ==> |st.bin[c]| == |st.nn[c]| == rows + if c < st.col then 1 else 0
  {
    rows := |cells| / |cfg.kinds|;
    forall c | 0 <= c < |cfg.kinds| ensures |st.bin[c]| == |st.nn[c]| == rows + if c < st.col then 1 else 0 {
      assert ColumnLoaded(cfg, cells, st, c);
    }
  }
}
