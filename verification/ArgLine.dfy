/**
 The lines of the compound-expression file: is_in_compound writes the
 arguments of a command joined by a delimiter (q-base/src/dbauxil.c:1078-1082),
 read_nth_val reads one back (q-base/src/auxil.c:158-185).
 */
module ArgLine {

  const DELIM: string := "__@@__"

  // ----- reading

  predicate Ends(s: string) { s == "" || s[0] == '\0' || s[0] == '\n' }

  predicate Starts(s: string, delim: string) { delim <= s }

  datatype Option = None | Some(value: string)

  /** What remains after `n` delimiters. */
  function Skip(s: string, delim: string, n: nat): Option
    requires delim != ""
    decreases |s|
  {
    if n == 0 then Some(s)
    else if Ends(s) then None
    else if Starts(s, delim) then Skip(s[|delim|..], delim, n - 1)
    else Skip(s[1..], delim, n)
  }

  /** The text up to the next delimiter or the end. */
  function Take(s: string, delim: string): string {
    if Ends(s) || Starts(s, delim) then "" else [s[0]] + Take(s[1..], delim)
  }

  function Nth(s: string, delim: string, n: nat): string
    requires delim != ""
  {
    match Skip(s, delim, n)
    case None => ""
    case Some(t) => Take(t, delim)
  }

  // ----- what that is, position by position

  predicate AtEnd(s: string, c: int) {
    0 <= c <= |s| && (c == |s| || s[c] == '\0' || s[c] == '\n')
  }

  predicate AtDelim(s: string, delim: string, c: int) {
    0 <= c <= |s| && !AtEnd(s, c) && delim <= s[c..]
  }

  /** A field that begins at `a` reaches to `e`: the next delimiter or the end of the line. */
  ghost predicate Field(s: string, delim: string, a: int, e: int) {
    && 0 <= a <= e <= |s| && (AtEnd(s, e) || AtDelim(s, delim, e))
    && forall c :: a <= c < e ==> !AtEnd(s, c) && !AtDelim(s, delim, c)
  }

  lemma {:induction false} FieldFrom(s: string, delim: string, a: nat, n: nat) returns (e: nat)
    requires delim != "" && a <= |s|
    ensures Field(s, delim, a, e) && Take(s[a..], delim) == s[a..e]
    ensures n > 0 && AtDelim(s, delim, e) ==>
              e + |delim| <= |s| && Skip(s[a..], delim, n) == Skip(s[e + |delim|..], delim, n - 1)
    ensures n > 0 && AtEnd(s, e) ==> Skip(s[a..], delim, n) == None
    decreases |s| - a
  {
    if AtEnd(s, a) || AtDelim(s, delim, a) {
      e := a;
      if AtDelim(s, delim, a) { assert s[a..][|delim|..] == s[a + |delim|..]; }
    } else {
      assert s[a..][1..] == s[a+1..];
      e := FieldFrom(s, delim, a + 1, n);
      assert s[a..e] == [s[a]] + s[a+1..e];
    }
  }

  /**
   Field 0 reaches to the first delimiter or end; the next fields are those
   behind that delimiter, and behind an end there are none.
   */
  lemma NthLaw(s: string, delim: string, n: nat) returns (e: nat)
    requires delim != ""
    ensures Field(s, delim, 0, e)
    ensures n == 0 ==> Nth(s, delim, n) == s[..e]
    ensures n > 0 && AtEnd(s, e) ==> Nth(s, delim, n) == ""
    ensures n > 0 && AtDelim(s, delim, e) ==>
              e + |delim| <= |s| && Nth(s, delim, n) == Nth(s[e + |delim|..], delim, n - 1)
  {
    assert s[0..] == s;
    e := FieldFrom(s, delim, 0, n);
  }

  /** read_nth_val for an output buffer of `size` characters. */
  method ReadNthVal(s: string, delim: string, n: int, size: int) returns (status: int, out: string)
    ensures status == if size < 2 || n < 0 || delim == "" || |Nth(s, delim, n)| >= size then -1 else 0
    ensures status == 0 ==> out == Nth(s, delim, n)
  {
    status, out := 0, "";
    if size < 2 || n < 0 || delim == "" { return -1, ""; }
    var i, c := 0, 0;
    assert s[0..] == s;
    while i < n && c < |s| && s[c] != '\0' && s[c] != '\n'
      invariant 0 <= i <= n && 0 <= c <= |s| && Skip(s, delim, n) == Skip(s[c..], delim, n - i)
      decreases |s| - c
    {
      var rest := s[c..];
      if delim <= rest {
        assert rest[|delim|..] == s[c + |delim|..];
        c, i := c + |delim|, i + 1;
      } else {
        assert rest[1..] == s[c+1..];
        c := c + 1;
      }
    }
    if i < n { return 0, ""; }
    status, out := CopyOut(s, c, delim, size);
  }

  lemma TakeNext(s: string, c: nat, delim: string, out: string)
    requires c < |s| && !Ends(s[c..]) && !Starts(s[c..], delim)
    ensures out + Take(s[c..], delim) == out + [s[c]] + Take(s[c+1..], delim)
  {
    assert s[c..][1..] == s[c+1..];
  }

  /** The copying loop (auxil.c:178-184). */
  method CopyOut(s: string, c0: nat, delim: string, size: int) returns (status: int, out: string)
    requires c0 <= |s| && size >= 2
    ensures status == if |Take(s[c0..], delim)| >= size then -1 else 0
    ensures status == 0 ==> out == Take(s[c0..], delim)
  {
    ghost var all := Take(s[c0..], delim);
    status, out := 0, "";
    var c := c0;
    while c < |s| && s[c] != '\0' && s[c] != '\n'
      invariant 0 <= c <= |s| && |out| < size && status == 0 && all == out + Take(s[c..], delim)
      decreases |s| - c
    {
      if delim <= s[c..] { break; }
      TakeNext(s, c, delim, out);
      if |out| == size - 1 { return -1, ""; }
      out := out + [s[c]];
      c := c + 1;
    }
  }

  // ----- writing

  /** The arguments after the first, each behind a delimiter, then the newline. */
  function Tail(args: seq<string>): string {
    if args == [] then "\n" else DELIM + args[0] + Tail(args[1..])
  }

  function Line(args: seq<string>): string
    requires args != []
  {
    args[0] + Tail(args[1..])
  }

  /** is_in_compound's loop over argv[1..argc). */
  method WriteLine(args: seq<string>) returns (line: string)
    requires args != []
    ensures line == Line(args)
  {
    line := args[0];
    var i := 1;
    while i < |args|
      invariant 1 <= i <= |args| && Line(args) == line + Tail(args[i..])
    {
      assert args[i..][1..] == args[i+1..];
      line := line + DELIM + args[i];
      i := i + 1;
    }
    line := line + "\n";
  }

  // ----- the round trip

  predicate Plain(a: string) {
    forall i :: 0 <= i < |a| ==> a[i] != '@' && a[i] != '\n' && a[i] != '\0'
  }

  /** Nothing inside the argument, as it stands in the line, looks like a delimiter or an end. */
  ghost predicate Whole(a: string, rest: seq<string>) {
    forall i :: 0 <= i < |a| ==> !Starts((a + Tail(rest))[i..], DELIM) && !Ends((a + Tail(rest))[i..])
  }

  lemma TailChars(rest: seq<string>)
    ensures rest == [] ==> Tail(rest) == "\n"
    ensures rest != [] ==> |Tail(rest)| >= 6 && Tail(rest)[0] == '_' && Tail(rest)[1] == '_' && DELIM <= Tail(rest)
  {}

  /** Arguments without '@' are whole, even where their underscores meet those of the delimiter. */
  lemma PlainWhole(a: string, rest: seq<string>)
    requires Plain(a)
    ensures Whole(a, rest)
  {
    TailChars(rest);
    forall i | 0 <= i < |a| ensures !Starts((a + Tail(rest))[i..], DELIM) && !Ends((a + Tail(rest))[i..]) {
      var s := (a + Tail(rest))[i..];
      assert s[0] == a[i];
      assert i + 2 < |a| ==> s[2] == a[i+2];
      assert i + 2 >= |a| && |s| > 2 ==> s[2] == Tail(rest)[i + 2 - |a|];
      ThirdChar(s);
    }
  }

  lemma ThirdChar(s: string)
    ensures Starts(s, DELIM) ==> |s| > 2 && s[2] == '@'
  {
    if Starts(s, DELIM) { assert s[2] == DELIM[2]; }
  }

  lemma WholeStep(a: string, rest: seq<string>)
    requires a != ""
    ensures Whole(a, rest) <==> !Starts(a + Tail(rest), DELIM) && !Ends(a + Tail(rest)) && Whole(a[1..], rest)
  {
    var s, t := a + Tail(rest), a[1..] + Tail(rest);
    assert s[0..] == s;
    forall i | 0 <= i < |a| - 1 ensures t[i..] == s[i+1..] {}
    if Whole(a, rest) {
      forall i | 0 <= i < |a[1..]| ensures !Starts(t[i..], DELIM) && !Ends(t[i..]) {
        var k := i + 1;
        assert t[i..] == s[k..];
      }
    }
    if !Starts(s, DELIM) && !Ends(s) && Whole(a[1..], rest) {
      forall i | 0 <= i < |a| ensures !Starts(s[i..], DELIM) && !Ends(s[i..]) {
        if i > 0 {
          var k := i - 1;
          assert t[k..] == s[i..];
        }
      }
    }
  }

  /** An argument is taken back exactly when it is whole. */
  lemma {:induction false} TakeArg(a: string, rest: seq<string>)
    ensures Take(a + Tail(rest), DELIM) == a <==> Whole(a, rest)
  {
    var s := a + Tail(rest);
    if a == "" {
      TailChars(rest);
      assert s == Tail(rest);
    } else {
      WholeStep(a, rest);
      TakeArg(a[1..], rest);
      assert s[1..] == a[1..] + Tail(rest);
      assert a == [a[0]] + a[1..];
      if !Ends(s) && !Starts(s, DELIM) {
        assert Take(s, DELIM) == [a[0]] + Take(s[1..], DELIM);
        assert Take(s, DELIM) == a ==> Take(s, DELIM)[1..] == a[1..];
        assert Take(s, DELIM)[1..] == Take(s[1..], DELIM);
      }
    }
  }

  lemma {:induction false} SkipArg(a: string, rest: seq<string>, n: nat)
    requires Whole(a, rest) && n > 0
    ensures Skip(a + Tail(rest), DELIM, n) == Skip(Tail(rest), DELIM, n)
  {
    if a == "" {
      assert a + Tail(rest) == Tail(rest);
    } else {
      WholeStep(a, rest);
      SkipArg(a[1..], rest, n);
      assert (a + Tail(rest))[1..] == a[1..] + Tail(rest);
    }
  }

  lemma SkipStep(s: string, delim: string, n: nat)
    requires delim != "" && n > 0 && !Ends(s) && Starts(s, delim)
    ensures Skip(s, delim, n) == Skip(s[|delim|..], delim, n - 1)
  {}

  lemma SkipDelim(rest: seq<string>, n: nat)
    requires rest != [] && n > 0
    ensures Skip(Tail(rest), DELIM, n) == Skip(rest[0] + Tail(rest[1..]), DELIM, n - 1)
  {
    TailChars(rest);
    SkipStep(Tail(rest), DELIM, n);
    assert Tail(rest)[|DELIM|..] == rest[0] + Tail(rest[1..]);
  }

  ghost predicate WholeUpTo(args: seq<string>, n: nat) {
    forall k :: 0 <= k < n && k < |args| ==> Whole(args[k], args[k+1..])
  }

  /** Behind whole arguments the reader stands at the next one. */
  lemma {:induction false} Reaches(args: seq<string>, n: nat)
    requires n < |args| && WholeUpTo(args, n)
    ensures Nth(Line(args), DELIM, n) == Take(args[n] + Tail(args[n+1..]), DELIM)
    decreases n
  {
    if n > 0 {
      var rest := args[1..];
      SkipArg(args[0], rest, n);
      SkipDelim(rest, n);
      forall k | 0 <= k < n - 1 ensures Whole(rest[k], rest[k+1..]) {
        var m := k + 1;
        assert rest[k+1..] == args[m+1..];
      }
      Reaches(rest, n - 1);
      assert rest[n..] == args[n+1..];
    }
  }

  /** Every argument is read back exactly when every argument is whole. */
  lemma RoundTripExactly(args: seq<string>)
    requires args != []
    ensures (forall n :: 0 <= n < |args| ==> Nth(Line(args), DELIM, n) == args[n]) <==> WholeUpTo(args, |args|)
  {
    if forall n :: 0 <= n < |args| ==> Nth(Line(args), DELIM, n) == args[n] {
      ReadIsWhole(args, |args|);
    }
    if WholeUpTo(args, |args|) {
      forall n | 0 <= n < |args| ensures Nth(Line(args), DELIM, n) == args[n] {
        Reaches(args, n);
        TakeArg(args[n], args[n+1..]);
      }
    }
  }

  lemma {:induction false} ReadIsWhole(args: seq<string>, n: nat)
    requires n <= |args| && forall k :: 0 <= k < |args| ==> Nth(Line(args), DELIM, k) == args[k]
    ensures WholeUpTo(args, n)
  {
    if n > 0 {
      var m := n - 1;
      ReadIsWhole(args, m);
      OneMoreWhole(args, m);
    }
  }

  lemma OneMoreWhole(args: seq<string>, m: nat)
    requires m < |args| && WholeUpTo(args, m) && Nth(Line(args), DELIM, m) == args[m]
    ensures WholeUpTo(args, m + 1)
  {
    Reaches(args, m);
    TakeArg(args[m], args[m+1..]);
  }

  /** Beyond the last argument there is nothing. */
  lemma {:induction false} PastTheEnd(args: seq<string>, n: nat)
    requires args != [] && n >= |args| && WholeUpTo(args, |args|)
    ensures Nth(Line(args), DELIM, n) == ""
  {
    var rest := args[1..];
    SkipArg(args[0], rest, n);
    if rest != [] {
      SkipDelim(rest, n);
      forall k | 0 <= k < |rest| ensures Whole(rest[k], rest[k+1..]) {
        var m := k + 1;
        assert rest[k+1..] == args[m+1..];
      }
      PastTheEnd(rest, n - 1);
    }
  }

  /** Arguments free of '@', newline and NUL, empty ones and underscores included, always come back. */
  lemma RoundTrip(args: seq<string>, n: nat)
    requires args != [] && forall i :: 0 <= i < |args| ==> Plain(args[i])
    ensures Nth(Line(args), DELIM, n) == if n < |args| then args[n] else ""
  {
    forall k | 0 <= k < |args| ensures Whole(args[k], args[k+1..]) {
      PlainWhole(args[k], args[k+1..]);
    }
    if n < |args| { RoundTripExactly(args); } else { PastTheEnd(args, n); }
  }
}
