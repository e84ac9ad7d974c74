/** The passwd file: lines, fields and decimal numbers, and the rewrite that replaces one password. */
module Passwd {

  datatype Option<T> = None | Some(value: T)

  datatype Rec = Rec(name: string, passwd: string, uid: nat, gid: nat, dir: string, shell: string)

  const NUL: char := '\0'
  const LINEMAX: nat := 255
  const READMAX: nat := 1023

  predicate Without(s: string, c: char) {
    forall k | 0 <= k < |s| :: s[k] != c
  }

  // ----- decimal numbers -----

  function Digit(d: nat): char
    requires d < 10
  {
    '0' + d as char
  }

  predicate IsDigit(c: char) {
    '0' <= c <= '9'
  }

  function Value(c: char): nat
    requires IsDigit(c)
  {
    (c - '0') as nat
  }

  function Decimal(n: nat): (s: string)
    ensures |s| > 0
  {
    if n < 10 then [Digit(n)] else Decimal(n / 10) + [Digit(n % 10)]
  }

  /** The number acc, continued over the leading digits of s. */
  function Atoi(s: string, acc: nat): nat
    decreases |s|
  {
    if s == "" || !IsDigit(s[0]) then acc else Atoi(s[1..], acc * 10 + Value(s[0]))
  }

  predicate Digits(s: string) {
    forall k | 0 <= k < |s| :: IsDigit(s[k])
  }

  lemma {:induction false} AtoiConcat(a: string, b: string, acc: nat)
    requires Digits(a)
    ensures Atoi(a + b, acc) == Atoi(b, Atoi(a, acc))
    decreases |a|
  {
    if a == "" {
      assert a + b == b;
    } else {
      assert (a + b)[1..] == a[1..] + b;
      AtoiConcat(a[1..], b, acc * 10 + Value(a[0]));
    }
  }

  /** Printing and reading are inverse. */
  lemma {:induction false} AtoiDecimal(n: nat)
    ensures Digits(Decimal(n)) && Atoi(Decimal(n), 0) == n
  {
    if n < 10 {
      assert [Digit(n)][1..] == "";
    } else {
      AtoiDecimal(n / 10);
      AtoiConcat(Decimal(n / 10), [Digit(n % 10)], 0);
      assert [Digit(n % 10)][1..] == "";
    }
  }

  // ----- fields and lines -----

  /** Length of s up to the first c. */
  function Until(s: string, c: char): (n: nat)
    ensures n <= |s| && (n < |s| ==> s[n] == c) && forall k | 0 <= k < n :: s[k] != c
  {
    if s == "" || s[0] == c then 0 else 1 + Until(s[1..], c)
  }

  lemma {:induction false} UntilIs(a: string, rest: string, c: char)
    requires Without(a, c) && (rest == "" || rest[0] == c)
    ensures Until(a + rest, c) == |a|
  {
    if a == "" {
      assert a + rest == rest;
    } else {
      assert (a + rest)[1..] == a[1..] + rest;
      UntilIs(a[1..], rest, c);
    }
  }

  /** The fields of a line, separated by ':'. */
  function Fields(s: string): (f: seq<string>)
    ensures |f| > 0
    decreases |s|
  {
    var n := Until(s, ':');
    if n == |s| then [s] else [s[..n]] + Fields(s[n + 1..])
  }

  /** The lines of a text; a last line need not end in a newline. */
  function Lines(t: string): seq<string>
    decreases |t|
  {
    var n := Until(t, '\n');
    if n == |t| then (if t == "" then [] else [t]) else [t[..n]] + Lines(t[n + 1..])
  }

  lemma FieldsCons(a: string, rest: string)
    requires Without(a, ':')
    ensures Fields(a + ":" + rest) == [a] + Fields(rest) && Fields(a) == [a]
  {
    UntilIs(a, ":" + rest, ':');
    assert a + (":" + rest) == a + ":" + rest;
    UntilIs(a, "", ':');
    assert a + "" == a;
  }

  lemma LinesCons(a: string, rest: string)
    requires Without(a, '\n')
    ensures Lines(a + "\n" + rest) == [a] + Lines(rest)
  {
    UntilIs(a, "\n" + rest, '\n');
    assert a + ("\n" + rest) == a + "\n" + rest;
  }

  /** Six fields or more make a record; numbers are read from their leading digits. */
  function RecOf(f: seq<string>): Option<Rec> {
    if |f| < 6 then None else Some(Rec(f[0], f[1], Atoi(f[2], 0), Atoi(f[3], 0), f[4], f[5]))
  }

  /** A line is cut to 255 characters before it is split. */
  function Clip(line: string, n: nat): string {
    if |line| > n then line[..n] else line
  }

  function Parse(line: string): Option<Rec> {
    RecOf(Fields(Clip(line, LINEMAX)))
  }

  function ParseAll(ls: seq<string>): seq<Rec> {
    if ls == [] then [] else Got(ls[0]) + ParseAll(ls[1..])
  }

  /** The record of a line, if it is one. */
  function Got(line: string): seq<Rec> {
    match Parse(line) case Some(r) => [r] case None => []
  }

  /** The records of a file, of which at most 1023 bytes are read. */
  function Records(file: string): seq<Rec> {
    ParseAll(Lines(Clip(file, READMAX)))
  }

  /** The fields fit the arrays of struct passwd, with room for the terminator, and the numbers fit an int. */
  predicate InStruct(r: Rec) {
    |r.name| < 32 && |r.passwd| < 128 && |r.dir| < 64 && |r.shell| < 64 && r.uid < 0x8000_0000 && r.gid < 0x8000_0000
  }

  predicate AllInStruct(rs: seq<Rec>) {
    forall k | 0 <= k < |rs| :: InStruct(rs[k])
  }

  lemma AllInStructParts(a: seq<Rec>, b: seq<Rec>)
    requires AllInStruct(a + b)
    ensures AllInStruct(a) && AllInStruct(b)
  {
    assert forall k | 0 <= k < |a| :: (a + b)[k] == a[k];
    assert forall k | 0 <= k < |b| :: (a + b)[|a| + k] == b[k];
  }

  // ----- printing -----

  function PrintLine(r: Rec): string {
    r.name + ":" + (r.passwd + ":" + (Decimal(r.uid) + ":" + (Decimal(r.gid) + ":" + (r.dir + ":" + r.shell))))
  }

  function PrintAll(rs: seq<Rec>): string {
    if rs == [] then "" else PrintLine(rs[0]) + "\n" + PrintAll(rs[1..])
  }

  predicate FieldOk(s: string) {
    Without(s, ':') && Without(s, '\n')
  }

  /** No separators in the fields, and the printed line fits a line buffer. */
  predicate RecOk(r: Rec) {
    FieldOk(r.name) && FieldOk(r.passwd) && FieldOk(r.dir) && FieldOk(r.shell) && |PrintLine(r)| < LINEMAX
  }

  predicate AllOk(rs: seq<Rec>) {
    forall k | 0 <= k < |rs| :: RecOk(rs[k])
  }

  lemma DecimalOk(n: nat)
    ensures FieldOk(Decimal(n))
  {
    AtoiDecimal(n);
    assert forall k | 0 <= k < |Decimal(n)| :: IsDigit(Decimal(n)[k]);
  }

  lemma ParsePrint(r: Rec)
    requires RecOk(r)
    ensures Parse(PrintLine(r)) == Some(r) && Without(PrintLine(r), '\n')
  {
    hide Fields, Decimal, Until, Atoi;
    DecimalOk(r.uid);
    DecimalOk(r.gid);
    var e := r.dir + ":" + r.shell;
    var d := Decimal(r.gid) + ":" + e;
    var c := Decimal(r.uid) + ":" + d;
    var b := r.passwd + ":" + c;
    FieldsCons(r.shell, "");
    FieldsCons(r.dir, r.shell);
    FieldsCons(Decimal(r.gid), e);
    FieldsCons(Decimal(r.uid), d);
    FieldsCons(r.passwd, c);
    FieldsCons(r.name, b);
    AtoiDecimal(r.uid);
    AtoiDecimal(r.gid);
    JoinWithout(r.dir, r.shell);
    JoinWithout(Decimal(r.gid), e);
    JoinWithout(Decimal(r.uid), d);
    JoinWithout(r.passwd, c);
    JoinWithout(r.name, b);
  }

  lemma JoinWithout(a: string, b: string)
    requires Without(a, '\n') && Without(b, '\n')
    ensures Without(a + ":" + b, '\n')
  {
  }

  /** Columns joined with ':'. */
  function Joined(cols: seq<string>): string
    requires cols != []
  {
    if |cols| == 1 then cols[0] else cols[0] + ":" + Joined(cols[1..])
  }

  lemma {:induction false} FieldsJoined(cols: seq<string>)
    requires cols != [] && forall k | 0 <= k < |cols| :: Without(cols[k], ':')
    ensures Fields(Joined(cols)) == cols
  {
    hide Fields;
    if |cols| == 1 {
      FieldsCons(cols[0], "");
    } else {
      FieldsJoined(cols[1..]);
      FieldsCons(cols[0], Joined(cols[1..]));
    }
  }

  /** What each column of a line is; a line of fewer than six is no record. */
  lemma ParseColumns(cols: seq<string>)
    requires cols != [] && |Joined(cols)| <= LINEMAX && forall k | 0 <= k < |cols| :: Without(cols[k], ':')
    ensures Parse(Joined(cols)).None? <==> |cols| < 6
    ensures |cols| >= 6 ==> Parse(Joined(cols)) == Some(Rec(cols[0], cols[1], Atoi(cols[2], 0), Atoi(cols[3], 0), cols[4], cols[5]))
  {
    hide Fields, Joined, Atoi;
    FieldsJoined(cols);
  }

  lemma JoinedCons(c: string, cols: seq<string>)
    ensures Joined([c] + cols) == if cols == [] then c else c + ":" + Joined(cols)
  {
    assert ([c] + cols)[1..] == cols;
  }

  /** The columns of a printed record. */
  lemma PrintColumns(r: Rec)
    ensures PrintLine(r) == Joined([r.name, r.passwd, Decimal(r.uid), Decimal(r.gid), r.dir, r.shell])
  {
    hide Joined, Decimal;
    var shell := [r.shell];
    var dir := [r.dir] + shell;
    var gid := [Decimal(r.gid)] + dir;
    var uid := [Decimal(r.uid)] + gid;
    var passwd := [r.passwd] + uid;
    assert [r.name, r.passwd, Decimal(r.uid), Decimal(r.gid), r.dir, r.shell] == [r.name] + passwd;
    JoinedCons(r.name, passwd);
    JoinedCons(r.passwd, uid);
    JoinedCons(Decimal(r.uid), gid);
    JoinedCons(Decimal(r.gid), dir);
    JoinedCons(r.dir, shell);
    JoinedCons(r.shell, []);
    assert [r.shell] + [] == shell;
  }

  /** The digits of a printed number, from the last. */
  lemma DecimalDigits(n: nat)
    ensures Decimal(n)[|Decimal(n)| - 1] == "0123456789"[n % 10]
    ensures Decimal(n)[..|Decimal(n)| - 1] == if n < 10 then "" else Decimal(n / 10)
  {
  }

  /** Reading what was printed gives the records back. */
  lemma {:induction false} ParseAllPrint(rs: seq<Rec>)
    requires AllOk(rs)
    ensures ParseAll(Lines(PrintAll(rs))) == rs
  {
    hide Lines, PrintLine, Parse, RecOk;
    if rs == [] {
      NoLines();
    } else {
      ParsePrint(rs[0]);
      LinesCons(PrintLine(rs[0]), PrintAll(rs[1..]));
      ParseAllPrint(rs[1..]);
      var ls := [PrintLine(rs[0])] + Lines(PrintAll(rs[1..]));
      assert ls[1..] == Lines(PrintAll(rs[1..]));
    }
  }

  lemma NoLines()
    ensures Lines("") == []
  {
  }

  // ----- the rewrite -----

  function Changed(r: Rec, name: string, hash: string): Rec {
    if r.name == name then r.(passwd := hash) else r
  }

  function AllChanged(rs: seq<Rec>, name: string, hash: string): (c: seq<Rec>)
    ensures |c| == |rs|
  {
    if rs == [] then [] else [Changed(rs[0], name, hash)] + AllChanged(rs[1..], name, hash)
  }

  /** The file that update_password writes. */
  function Rewritten(file: string, name: string, hash: string): string {
    PrintAll(AllChanged(Records(file), name, hash))
  }

  /** The first record of that name. */
  function Lookup(rs: seq<Rec>, name: string): Option<Rec> {
    if rs == [] then None else if rs[0].name == name then Some(rs[0]) else Lookup(rs[1..], name)
  }

  /** The rewritten lines fit the line buffer, and the rewritten file is read in one piece. */
  predicate Fits(file: string, name: string, hash: string) {
    && |Rewritten(file, name, hash)| <= READMAX
    && forall k | 0 <= k < |AllChanged(Records(file), name, hash)| :: |PrintLine(AllChanged(Records(file), name, hash)[k])| < LINEMAX
  }

  lemma {:induction false} FieldsClean(s: string)
    requires Without(s, '\n')
    ensures forall k | 0 <= k < |Fields(s)| :: FieldOk(Fields(s)[k])
    decreases |s|
  {
    var n := Until(s, ':');
    if n < |s| {
      FieldsClean(s[n + 1..]);
    }
  }

  lemma {:induction false} LinesClean(t: string)
    ensures forall k | 0 <= k < |Lines(t)| :: Without(Lines(t)[k], '\n')
    decreases |t|
  {
    var n := Until(t, '\n');
    if n < |t| {
      LinesClean(t[n + 1..]);
    } else {
      assert t[..n] == t;
    }
  }

  predicate Clean(r: Rec) {
    FieldOk(r.name) && FieldOk(r.passwd) && FieldOk(r.dir) && FieldOk(r.shell)
  }

  lemma {:induction false} ParseAllClean(ls: seq<string>)
    requires forall k | 0 <= k < |ls| :: Without(ls[k], '\n')
    ensures forall k | 0 <= k < |ParseAll(ls)| :: Clean(ParseAll(ls)[k])
  {
    hide Fields, FieldOk;
    if ls != [] {
      FieldsClean(Clip(ls[0], LINEMAX));
      ParseAllClean(ls[1..]);
    }
  }

  lemma {:induction false} ChangedClean(rs: seq<Rec>, name: string, hash: string)
    requires FieldOk(hash) && forall k | 0 <= k < |rs| :: Clean(rs[k])
    ensures forall k | 0 <= k < |rs| :: Clean(AllChanged(rs, name, hash)[k])
  {
    hide FieldOk;
    if rs != [] {
      ChangedClean(rs[1..], name, hash);
    }
  }

  /** Any file: the new file has the same records in the same order, only the named ones have the new password. */
  lemma RewriteKeepsRecords(file: string, name: string, hash: string)
    requires FieldOk(hash) && Fits(file, name, hash)
    ensures Records(Rewritten(file, name, hash)) == AllChanged(Records(file), name, hash)
  {
    hide Lines, PrintLine, FieldOk, PrintAll, AllChanged, ParseAll;
    var rs := Records(file);
    LinesClean(Clip(file, READMAX));
    ParseAllClean(Lines(Clip(file, READMAX)));
    ChangedClean(rs, name, hash);
    ParseAllPrint(AllChanged(rs, name, hash));
  }

  lemma {:induction false} LookupChanged(rs: seq<Rec>, name: string, hash: string, n: string)
    ensures Lookup(AllChanged(rs, name, hash), n) ==
      match Lookup(rs, n) case None => None case Some(r) => Some(if n == name then r.(passwd := hash) else r)
  {
    if rs != [] {
      LookupChanged(rs[1..], name, hash, n);
    }
  }

  /** getpwnam afterwards: the new hash for that name, the old record for every other. */
  lemma RewriteLookup(file: string, name: string, hash: string, n: string)
    requires FieldOk(hash) && Fits(file, name, hash)
    ensures Lookup(Records(Rewritten(file, name, hash)), n) ==
      match Lookup(Records(file), n) case None => None case Some(r) => Some(if n == name then r.(passwd := hash) else r)
  {
    hide Records, Rewritten, FieldOk, Fits, AllChanged, Lookup;
    RewriteKeepsRecords(file, name, hash);
    LookupChanged(Records(file), name, hash, n);
  }

  // ----- the code: buffers, tokens cut in place, and the loop over lines -----

  /** The C string at position from of a buffer. */
  function CStr(buf: seq<char>, from: nat): string
    requires from <= |buf|
    decreases |buf| - from
  {
    if from == |buf| || buf[from] == NUL then "" else [buf[from]] + CStr(buf, from + 1)
  }

  lemma {:induction false} CStrIs(buf: seq<char>, from: nat, f: string)
    requires from + |f| < |buf| && buf[from..from + |f|] == f && Without(f, NUL) && buf[from + |f|] == NUL
    ensures CStr(buf, from) == f
    decreases |f|
  {
    if f != "" {
      assert buf[from] == buf[from..from + |f|][0] == f[0];
      assert buf[from + 1..from + 1 + |f[1..]|] == buf[from..from + |f|][1..] == f[1..];
      CStrIs(buf, from + 1, f[1..]);
    }
  }

  /** Decimal digits of n, least significant first, then reversed. */
  method IntToStr(n: nat) returns (s: string)
    ensures s == Decimal(n)
  {
    if n == 0 {
      return "0";
    }
    var temp := "";
    var val := n;
    while val > 0
      invariant Reversed(temp) == "" ==> val == n
      invariant val > 0 ==> Decimal(n) == Decimal(val) + Reversed(temp)
      invariant val == 0 ==> Decimal(n) == Reversed(temp)
    {
      temp := temp + [Digit(val % 10)];
      assert temp[..|temp| - 1] + [temp[|temp| - 1]] == temp;
      val := val / 10;
    }
    s := "";
    var j := 0;
    while j < |temp|
      invariant j <= |temp| && s == Reversed(temp[|temp| - j..])
    {
      ReversedNext(temp, |temp| - 1 - j);
      s := s + [temp[|temp| - 1 - j]];
      j := j + 1;
    }
    assert temp[|temp| - j..] == temp;
  }

  function Reversed(t: string): string {
    if t == "" then "" else [t[|t| - 1]] + Reversed(t[..|t| - 1])
  }

  lemma {:induction false} ReversedNext(t: string, k: nat)
    requires k < |t|
    ensures Reversed(t[k..]) == Reversed(t[k + 1..]) + [t[k]]
    decreases |t| - k
  {
    var a, b := t[k..], t[k + 1..];
    if k == |t| - 1 {
      assert b == "" && a == [t[k]] && a[..0] == "";
    } else {
      var u := t[..|t| - 1];
      assert a[..|a| - 1] == u[k..] && b[..|b| - 1] == u[k + 1..];
      ReversedNext(u, k);
    }
  }

  /** The tokens found so far: their texts, where each starts, and the start of the one being read. */
  ghost predicate Tokens(buf: seq<char>, s: string, done: seq<string>, starts: seq<nat>, cur: nat, i: nat) {
    && |s| < |buf| && cur <= i <= |s| && |starts| == |done|
    && Fields(s) == done + Fields(s[cur..]) && Without(s[cur..i], ':')
    && (forall k | cur <= k < |s| :: buf[k] == s[k]) && buf[|s|] == NUL
    && (forall j | 0 <= j < |done| :: starts[j] + |done[j]| < cur && TokenAt(buf, starts[j], done[j]))
  }

  predicate TokenAt(buf: seq<char>, from: nat, f: string) {
    from + |f| < |buf| && buf[from..from + |f|] == f && buf[from + |f|] == NUL
  }

  lemma TokensSkip(buf: seq<char>, s: string, done: seq<string>, starts: seq<nat>, cur: nat, i: nat)
    requires Tokens(buf, s, done, starts, cur, i) && i < |s| && s[i] != ':'
    ensures Tokens(buf, s, done, starts, cur, i + 1)
  {
    hide Fields, TokenAt;
    assert s[cur..i + 1] == s[cur..i] + [s[i]];
  }

  lemma TokensCut(buf: seq<char>, s: string, done: seq<string>, starts: seq<nat>, cur: nat, i: nat)
    requires Tokens(buf, s, done, starts, cur, i) && i < |s| && s[i] == ':'
    ensures Tokens(buf[i := NUL], s, done + [s[cur..i]], starts + [cur], i + 1, i + 1)
  {
    hide Fields;
    var a, rest := s[cur..i], s[i + 1..];
    assert s[cur..] == a + ":" + rest;
    FieldsCons(a, rest);
    assert done + ([a] + Fields(rest)) == done + [a] + Fields(rest);
    var b := buf[i := NUL];
    assert b[cur..i] == a;
    forall j | 0 <= j < |done| ensures TokenAt(b, starts[j], done[j]) {
      assert TokenAt(buf, starts[j], done[j]);
      assert b[starts[j]..starts[j] + |done[j]|] == buf[starts[j]..starts[j] + |done[j]|];
    }
  }

  lemma TokensEnd(buf: seq<char>, s: string, done: seq<string>, starts: seq<nat>, cur: nat)
    requires Tokens(buf, s, done, starts, cur, |s|) && Without(s, NUL)
    ensures Fields(s) == done + [s[cur..]]
    ensures cur <= |buf| && CStr(buf, cur) == s[cur..]
  {
    hide Fields, CStr, TokenAt;
    var a := s[cur..];
    FieldsCons(a, "");
    assert s[cur..|s|] == a;
    assert buf[cur..cur + |a|] == a;
    CStrIs(buf, cur, a);
  }

  lemma TokenText(buf: seq<char>, s: string, done: seq<string>, starts: seq<nat>, cur: nat, i: nat, j: nat)
    requires Tokens(buf, s, done, starts, cur, i) && j < |done| && Without(done[j], NUL)
    ensures starts[j] <= |buf| && CStr(buf, starts[j]) == done[j]
  {
    hide Fields, CStr, Without;
    CStrIs(buf, starts[j], done[j]);
  }

  lemma {:induction false} FieldsNoNul(s: string, j: nat)
    requires Without(s, NUL) && j < |Fields(s)|
    ensures Without(Fields(s)[j], NUL)
    decreases |s|
  {
    var n := Until(s, ':');
    if n < |s| && j > 0 {
      FieldsNoNul(s[n + 1..], j - 1);
    }
  }

  /** What the buffer holds at the start: the clipped line and NULs. */
  method LoadLine(line: string) returns (buf: array<char>)
    requires Without(line, NUL)
    ensures fresh(buf) && buf.Length == 256
    ensures var s := Clip(line, LINEMAX); buf[..|s|] == s && forall k | |s| <= k < 256 :: buf[k] == NUL
  {
    buf := new char[256](_ => NUL);
    var k := 0;
    while k < 256 && k < |line|
      invariant k <= 256 && k <= |line| && buf[..k] == line[..k]
      invariant forall j | k <= j < 256 :: buf[j] == NUL
    {
      buf[k] := line[k];
      k := k + 1;
    }
    buf[255] := NUL;
  }

  /** parse_passwd_line: cut the buffer into tokens in place, then take six of them. */
  method ParseLine(line: string) returns (r: Option<Rec>)
    requires Without(line, NUL) && AllInStruct(Got(line))
    ensures r == Parse(line)
  {
    hide Fields, Until, CStr, Tokens, TokenAt;
    var buf := LoadLine(line);
    ghost var s := Clip(line, LINEMAX);
    var tokens := new nat[6](_ => 0);
    var t, i := 1, 0;
    ghost var done, starts, cur: nat := [], [], 0;
    TokensStart(buf[..], s);
    while buf[i] != NUL
      invariant buf.Length == 256 && cur <= i <= |s| <= 255 && Tokens(buf[..], s, done, starts, cur, i)
      invariant forall k | i <= k < |s| :: buf[k] == s[k]
      invariant buf[|s|] == NUL
      invariant t == (if |done| < 5 then |done| + 1 else 6) && |starts| == |done|
      invariant forall j | 0 <= j < t :: tokens[j] == (starts + [cur])[j]
      decreases |s| - i
    {
      if buf[i] == ':' {
        TokensCut(buf[..], s, done, starts, cur, i);
        ghost var was := buf[..];
        buf[i] := NUL;
        assert buf[..] == was[i := NUL];
        done, starts, cur := done + [s[cur..i]], starts + [cur], i + 1;
        if t < 6 {
          tokens[t] := i + 1;
          t := t + 1;
        }
      } else {
        TokensSkip(buf[..], s, done, starts, cur, i);
      }
      i := i + 1;
    }
    r := None;
    TokensEnd(buf[..], s, done, starts, cur);
    if t >= 6 {
      ghost var f := Fields(s);
      forall j | 0 <= j < 6 ensures tokens[j] <= 256 && CStr(buf[..], tokens[j]) == f[j] {
        if j < |done| {
          FieldsNoNul(s, j);
          TokenText(buf[..], s, done, starts, cur, i, j);
        }
      }
      var name := GetString(buf, tokens[0]);
      var passwd := GetString(buf, tokens[1]);
      var uid := GetNumber(buf, tokens[2]);
      var gid := GetNumber(buf, tokens[3]);
      var dir := GetString(buf, tokens[4]);
      var shell := GetString(buf, tokens[5]);
      r := Some(Rec(name, passwd, uid, gid, dir, shell));
    }
  }

  lemma TokensStart(buf: seq<char>, s: string)
    requires |s| < |buf| && buf[..|s|] == s && buf[|s|] == NUL
    ensures Tokens(buf, s, [], [], 0, 0)
  {
    hide Fields;
    assert s[0..] == s;
    assert [] + Fields(s) == Fields(s);
  }

  method GetString(buf: array<char>, from: nat) returns (s: string)
    requires from <= buf.Length
    ensures s == CStr(buf[..], from)
  {
    s := "";
    var i := from;
    while i < buf.Length && buf[i] != NUL
      invariant from <= i <= buf.Length && CStr(buf[..], from) == s + CStr(buf[..], i)
    {
      s := s + [buf[i]];
      i := i + 1;
    }
  }

  method GetNumber(buf: array<char>, from: nat) returns (n: nat)
    requires from <= buf.Length
    ensures n == Atoi(CStr(buf[..], from), 0)
  {
    n := 0;
    var i := from;
    while i < buf.Length && IsDigit(buf[i])
      invariant from <= i <= buf.Length && Atoi(CStr(buf[..], from), 0) == Atoi(CStr(buf[..], i), n)
    {
      assert CStr(buf[..], i) == [buf[i]] + CStr(buf[..], i + 1);
      n := n * 10 + Value(buf[i]);
      i := i + 1;
    }
  }

  method Format(r: Rec) returns (line: string)
    ensures line == PrintLine(r) + "\n"
  {
    hide Decimal;
    line := r.name + ":";
    line := line + r.passwd + ":";
    var uid := IntToStr(r.uid);
    var gid := IntToStr(r.gid);
    line := line + uid + ":";
    line := line + gid + ":";
    line := line + r.dir + ":";
    line := line + r.shell + "\n";
  }

  /** The records fit their structs, and their rewritten lines fit the line buffer. */
  predicate AllRoom(rs: seq<Rec>, name: string, hash: string) {
    AllInStruct(rs) && forall k | 0 <= k < |rs| :: |PrintLine(Changed(rs[k], name, hash))| < LINEMAX
  }

  lemma AllRoomParts(a: seq<Rec>, b: seq<Rec>, name: string, hash: string)
    requires AllRoom(a + b, name, hash)
    ensures AllRoom(a, name, hash) && AllRoom(b, name, hash)
  {
    hide PrintLine, Changed;
    AllInStructParts(a, b);
    assert forall k | 0 <= k < |a| :: (a + b)[k] == a[k];
    assert forall k | 0 <= k < |b| :: (a + b)[|a| + k] == b[k];
  }

  /** What update_password writes for one line. */
  method RewriteLine(line: string, name: string, hash: string) returns (out: string)
    requires Without(line, NUL) && AllRoom(Got(line), name, hash) && |hash| < 128
    ensures out == PrintAll(AllChanged(Got(line), name, hash))
  {
    hide Parse, PrintLine;
    out := "";
    var r := ParseLine(line);
    if r.Some? {
      var c := r.value;
      if c.name == name {
        c := c.(passwd := hash);
      }
      out := Format(c);
      assert AllChanged([r.value][1..], name, hash) == [] && [c][1..] == [];
    }
  }

  /** The loop over the lines of the text that was read; an unfinished last line counts if it is not empty. */
  method UpdatePassword(file: string, name: string, hash: string) returns (result: int, after: string)
    requires Without(file, NUL) && AllRoom(Records(file), name, hash) && |hash| < 128
    ensures if file == "" then result == -1 && after == file else result == 0 && after == Rewritten(file, name, hash)
  {
    hide ParseAll, Got, Lines, AllChanged, PrintAll, AllRoom, Without;
    var text := if |file| > READMAX then file[..READMAX] else file;
    if |text| == 0 {
      return -1, file;
    }
    after := "";
    var line, i := 0, 0;
    ghost var done: seq<Rec> := [];
    LineStart(text);
    ClipNoNul(file);
    PrintNone(name, hash);
    while i < |text|
      invariant 0 <= line <= i <= |text| && Without(text[line..i], '\n')
      invariant ParseAll(Lines(text)) == done + ParseAll(Lines(text[line..]))
      invariant after == PrintAll(AllChanged(done, name, hash))
      invariant AllRoom(ParseAll(Lines(text[line..])), name, hash)
    {
      if text[i] == '\n' {
        NextLine(text, line, i);
        PartNoNul(text, line, i);
        AllRoomParts(Got(text[line..i]), ParseAll(Lines(text[i + 1..])), name, hash);
        var out := RewriteLine(text[line..i], name, hash);
        PrintConcat(done, Got(text[line..i]), name, hash);
        Regroup(done, Got(text[line..i]), ParseAll(Lines(text[i + 1..])));
        after := after + out;
        done := done + Got(text[line..i]);
        line := i + 1;
      } else {
        LongerLine(text, line, i);
      }
      i := i + 1;
    }
    PartNoNul(text, line, |text|);
    LastLine(text, line);
    if line < |text| {
      var out := RewriteLine(text[line..], name, hash);
      PrintConcat(done, Got(text[line..]), name, hash);
      after := after + out;
    } else {
      assert done + [] == done;
    }
    result := 0;
  }

  lemma Regroup(a: seq<Rec>, b: seq<Rec>, c: seq<Rec>)
    ensures a + (b + c) == a + b + c
  {
  }

  lemma PrintNone(name: string, hash: string)
    ensures PrintAll(AllChanged([], name, hash)) == ""
  {
  }

  lemma ClipNoNul(file: string)
    requires Without(file, NUL)
    ensures Without(Clip(file, READMAX), NUL)
  {
  }

  lemma LineStart(text: string)
    ensures Without(text[0..0], '\n') && text[0..] == text && [] + ParseAll(Lines(text)) == ParseAll(Lines(text))
  {
    hide Lines, ParseAll;
    assert text[0..] == text;
  }

  lemma LongerLine(text: string, line: nat, i: nat)
    requires line <= i < |text| && Without(text[line..i], '\n') && text[i] != '\n'
    ensures Without(text[line..i + 1], '\n')
  {
    assert text[line..i + 1] == text[line..i] + [text[i]];
  }

  lemma PartNoNul(text: string, a: nat, b: nat)
    requires Without(text, NUL) && a <= b <= |text|
    ensures Without(text[a..b], NUL) && Without(text[a..], NUL)
  {
  }

  lemma NextLine(text: string, line: nat, i: nat)
    requires line <= i < |text| && Without(text[line..i], '\n') && text[i] == '\n'
    ensures ParseAll(Lines(text[line..])) == Got(text[line..i]) + ParseAll(Lines(text[i + 1..]))
    ensures Without(text[i + 1..i + 1], '\n')
  {
    hide Lines, Got;
    var a, rest := text[line..i], text[i + 1..];
    assert text[line..] == a + "\n" + rest;
    LinesCons(a, rest);
    assert ([a] + Lines(rest))[1..] == Lines(rest);
  }

  lemma LastLine(text: string, line: nat)
    requires line <= |text| && Without(text[line..|text|], '\n')
    ensures ParseAll(Lines(text[line..])) == if line == |text| then [] else Got(text[line..])
  {
    hide Got;
    var a := text[line..];
    assert text[line..|text|] == a;
    UntilIs(a, "", '\n');
    assert a + "" == a;
    if a != "" {
      assert [a][1..] == [];
      assert Got(a) + [] == Got(a);
    }
  }

  lemma {:induction false} PrintConcat(a: seq<Rec>, b: seq<Rec>, name: string, hash: string)
    ensures PrintAll(AllChanged(a + b, name, hash)) == PrintAll(AllChanged(a, name, hash)) + PrintAll(AllChanged(b, name, hash))
  {
    hide PrintLine, Changed;
    if a == [] {
      assert a + b == b;
    } else {
      assert (a + b)[1..] == a[1..] + b;
      PrintConcat(a[1..], b, name, hash);
      var c := Changed(a[0], name, hash);
      assert ([c] + AllChanged(a[1..] + b, name, hash))[1..] == AllChanged(a[1..] + b, name, hash);
      assert ([c] + AllChanged(a[1..], name, hash))[1..] == AllChanged(a[1..], name, hash);
    }
  }

  /** getpwnam: the first record of that name. */
  method GetPwNam(file: string, name: string) returns (r: Option<Rec>)
    requires Without(file, NUL) && AllInStruct(Records(file))
    ensures r == Lookup(Records(file), name)
  {
    hide Lines, Lookup, ParseAll, Got, AllInStruct, Without;
    var text := if |file| > READMAX then file[..READMAX] else file;
    var line, i := 0, 0;
    LineStart(text);
    ClipNoNul(file);
    while i < |text|
      invariant 0 <= line <= i <= |text| && Without(text[line..i], '\n')
      invariant Lookup(ParseAll(Lines(text)), name) == Lookup(ParseAll(Lines(text[line..])), name)
      invariant AllInStruct(ParseAll(Lines(text[line..])))
    {
      if text[i] == '\n' {
        NextLine(text, line, i);
        PartNoNul(text, line, i);
        AllInStructParts(Got(text[line..i]), ParseAll(Lines(text[i + 1..])));
        LookupGot(text[line..i], ParseAll(Lines(text[i + 1..])), name);
        r := MatchLine(text[line..i], name);
        if r.Some? {
          return;
        }
        line := i + 1;
      } else {
        LongerLine(text, line, i);
      }
      i := i + 1;
    }
    PartNoNul(text, line, |text|);
    LastLine(text, line);
    LookupGot(text[line..], [], name);
    r := None;
    if line < |text| {
      r := MatchLine(text[line..], name);
      assert Got(text[line..]) + [] == Got(text[line..]);
    }
  }

  method MatchLine(line: string, name: string) returns (r: Option<Rec>)
    requires Without(line, NUL) && AllInStruct(Got(line))
    ensures r == Lookup(Got(line), name)
  {
    hide Parse;
    r := ParseLine(line);
    if r.Some? && r.value.name != name {
      r := None;
    }
  }

  lemma LookupGot(line: string, rs: seq<Rec>, name: string)
    ensures Lookup(Got(line) + rs, name) == if Lookup(Got(line), name).Some? then Lookup(Got(line), name) else Lookup(rs, name)
    ensures Lookup([], name) == None
  {
    hide Parse;
    var g := Got(line);
    if g == [] {
      assert g + rs == rs;
    } else {
      assert (g + rs)[1..] == rs && g[1..] == [];
    }
  }
}
