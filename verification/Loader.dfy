/**
 The streaming loader of q-base/src/hdfs_get.c: a callback that receives a
 delimited text in arbitrary chunks and appends cells to one file per column.
 */
module Loader {

  const BUFSIZE := 32765
  const NUL: char := '\0'

  /** Result of stoI1, stoI2, ..., stoF8 as the bits that are written. */
  datatype Conv = Invalid | Bits(bits: int)

  /** Column types: numbers with their conversion, text (SV), and the rest. */
  datatype Kind = Number(conv: string -> Conv) | Text | Unsupported

  /** What one cell adds to its column's file; a number that does not convert still writes some bits. */
  datatype Cell = Fixed(bits: int) | Line(text: string) | Garbage

  datatype Config = Config(kinds: seq<Kind>, sep: char)

  predicate GoodConfig(cfg: Config) { |cfg.kinds| > 0 && cfg.sep != '\n' }

  /** The static variables of the callback, and the contents of the files. */
  datatype State = State(status: int, buf: string, col: nat, bin: seq<seq<Cell>>, nn: seq<seq<bool>>,
      hasNull: seq<bool>)

  ghost predicate Shaped(cfg: Config, st: State) {
    GoodConfig(cfg) && st.col < |cfg.kinds| && |st.bin| == |cfg.kinds| && |st.nn| == |cfg.kinds| &&
        |st.hasNull| == |cfg.kinds|
  }

  /** `text` is what a C program reads from the buffer `raw`: everything before the first NUL. */
  predicate TextOf(raw: string, text: string) {
    text <= raw && NUL !in text && (|text| < |raw| ==> raw[|text|] == NUL)
  }

  function CString(s: string): (text: string)
    ensures TextOf(s, text)
  {
    if s == "" || s[0] == NUL then "" else [s[0]] + CString(s[1..])
  }

  function Convert(k: Kind, text: string): Cell {
    match k
    case Number(conv) => if text == "" then Fixed(0) else if conv(text).Bits? then Fixed(conv(text).bits) else Garbage
    case Text => Line(text)
    case Unsupported => Garbage
  }

  predicate Converts(k: Kind, text: string) {
    match k
    case Number(conv) => text == "" || conv(text).Bits?
    case Text => true
    case Unsupported => false
  }

  function NextCol(n: nat, c: nat): nat {
    if c + 1 == n then 0 else c + 1
  }

  // ----- the specification: one byte, then many

  function AddCell(cfg: Config, st: State): State
    requires Shaped(cfg, st)
  {
    var text, k, c := CString(st.buf), cfg.kinds[st.col], st.col;
    State(if Converts(k, text) then 0 else -1, "", NextCol(|cfg.kinds|, c),
          if k.Unsupported? then st.bin else st.bin[c := st.bin[c] + [Convert(k, text)]],
          st.nn[c := st.nn[c] + [k.Unsupported? || text != ""]],
          if !k.Unsupported? && text == "" then st.hasNull[c := true] else st.hasNull)
  }

  function Step(cfg: Config, st: State, b: char): (r: State)
    requires Shaped(cfg, st)
    ensures Shaped(cfg, r)
  {
    if st.status < 0 then st
    else if |st.buf| >= BUFSIZE then st.(status := -1)
    else if b == '\n' || b == cfg.sep then
      if b == '\n' <==> st.col == |cfg.kinds| - 1 then AddCell(cfg, st) else st.(status := -1)
    else st.(buf := st.buf + [b])
  }

  function Run(cfg: Config, st: State, s: string): (r: State)
    requires Shaped(cfg, st)
    ensures Shaped(cfg, r)
  {
    if s == "" then st else Step(cfg, Run(cfg, st, s[..|s|-1]), s[|s|-1])
  }

  function Start(cfg: Config): (st: State)
    requires GoodConfig(cfg)
    ensures Shaped(cfg, st)
  {
    var n := |cfg.kinds|;
    State(0, "", 0, seq(n, _ => []), seq(n, _ => []), seq(n, _ => false))
  }

  /** The state survives chunk boundaries: two chunks in a row are one. */
  lemma {:induction false} RunConcat(cfg: Config, st: State, a: string, b: string)
    requires Shaped(cfg, st)
    ensures Run(cfg, st, a + b) == Run(cfg, Run(cfg, st, a), b)
    decreases |b|
  {
    if b == "" {
      assert a + b == a;
    } else {
      var b', z := b[..|b|-1], b[|b|-1];
      assert (a + b)[..|a + b|-1] == a + b';
      RunConcat(cfg, st, a, b');
    }
  }

  function Concat(chunks: seq<string>): string {
    if chunks == [] then "" else Concat(chunks[..|chunks|-1]) + chunks[|chunks|-1]
  }

  class Loader {
    const cfg: Config
    var status: int
    var buf: string
    var col: nat
    var bin: seq<seq<Cell>>
    var nn: seq<seq<bool>>
    var hasNull: seq<bool>

    ghost function Now(): State
      reads this
    {
      State(status, buf, col, bin, nn, hasNull)
    }

    ghost predicate Valid()
      reads this
    {
      Shaped(cfg, Now())
    }

    constructor (cfg: Config)
      requires GoodConfig(cfg)
      ensures this.cfg == cfg && Valid() && Now() == Start(cfg)
    {
      this.cfg := cfg;
      status, buf, col := 0, "", 0;
      bin := seq(|cfg.kinds|, _ => []);
      nn := seq(|cfg.kinds|, _ => []);
      hasNull := seq(|cfg.kinds|, _ => false);
    }

    /** The loop of WriteMemoryCallback over one chunk. */
    method Callback(inbuf: string)
      requires Valid()
      modifies this
      ensures Valid() && Now() == Run(cfg, old(Now()), inbuf)
    {
      ghost var st := Now();
      var i := 0;
      assert inbuf[..0] == "";
      while i < |inbuf|
        invariant 0 <= i <= |inbuf| && Valid() && Now() == Run(cfg, st, inbuf[..i])
      {
        if status < 0 {
          Stuck(cfg, st, inbuf, i);
          break;
        }
        RunNext(cfg, st, inbuf, i);
        Byte(inbuf[i]);
        i := i + 1;
      }
      assert i == |inbuf| ==> inbuf[..i] == inbuf;
    }

    /** One byte; the caller has checked that there was no error so far. */
    method Byte(b: char)
      requires Valid() && status >= 0
      modifies this
      ensures Valid() && Now() == Step(cfg, old(Now()), b)
    {
      if |buf| >= BUFSIZE {
        status := -1;
        return;
      }
      if b == cfg.sep || b == '\n' {
        if b == '\n' && col != |cfg.kinds| - 1 {
          status := -1;
          return;
        }
        if b == cfg.sep && col == |cfg.kinds| - 1 {
          status := -1;
          return;
        }
        WriteCell();
      } else {
        buf := buf + [b];
      }
    }

    /** A cell is complete (hdfs_get.c:86-164). */
    method WriteCell()
      requires Valid() && status >= 0
      modifies this
      ensures Valid() && Now() == AddCell(cfg, old(Now()))
    {
      var text := CString(buf);
      var flag := true;
      status := 0;
      match cfg.kinds[col] {
        case Number(conv) =>
          var val := Fixed(0);
          if text == "" {
            flag := false;
            hasNull := hasNull[col := true];
          } else {
            match conv(text) {
              case Bits(bits) =>
                val := Fixed(bits);
              case Invalid =>
                val := Garbage;
                status := -1;
            }
          }
          bin := bin[col := bin[col] + [val]];
        case Text =>
          if text == "" {
            flag := false;
            hasNull := hasNull[col := true];
          }
          bin := bin[col := bin[col] + [Line(text)]];
        case Unsupported =>
          status := -1;
      }
      nn := nn[col := nn[col] + [flag]];
      buf := "";
      col := col + 1;
      if col == |cfg.kinds| { col := 0; }
    }

    /** Any chunks in a row leave the state that their concatenation leaves. */
    method Feed(chunks: seq<string>)
      requires Valid()
      modifies this
      ensures Valid() && Now() == Run(cfg, old(Now()), Concat(chunks))
    {
      ghost var st := Now();
      var i := 0;
      assert chunks[..0] == [];
      while i < |chunks|
        invariant 0 <= i <= |chunks| && Valid() && Now() == Run(cfg, st, Concat(chunks[..i]))
      {
        RunConcat(cfg, st, Concat(chunks[..i]), chunks[i]);
        assert chunks[..i+1][..i] == chunks[..i];
        Callback(chunks[i]);
        i := i + 1;
      }
      assert chunks[..i] == chunks;
    }
  }

  lemma RunNext(cfg: Config, st: State, s: string, i: nat)
    requires Shaped(cfg, st) && i < |s|
    ensures Run(cfg, st, s[..i+1]) == Step(cfg, Run(cfg, st, s[..i]), s[i])
  {
    assert s[..i+1][..i] == s[..i];
  }

  /** After an error nothing changes. */
  lemma {:induction false} Stuck(cfg: Config, st: State, s: string, i: nat)
    requires Shaped(cfg, st) && i <= |s| && Run(cfg, st, s[..i]).status < 0
    ensures Run(cfg, st, s) == Run(cfg, st, s[..i])
    decreases |s| - i
  {
    if i == |s| {
      assert s[..i] == s;
    } else {
      RunNext(cfg, st, s, i);
      Stuck(cfg, st, s, i + 1);
    }
  }
}
