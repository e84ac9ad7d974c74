/**
 Address spaces as two-level page tables in physical memory: what a directory maps, which pages it
 owns, and what copying a table or a directory into fresh pages means.
 */
module Spaces {
  import opened Bytes
  import opened Pages

  predicate Present(e: Word) {
    e % 2 == 1
  }

  function Frame(e: Word): (p: nat)
    ensures p < 0x10_0000
  {
    e / 4096
  }

  function Flags(e: Word): Word {
    e % 4096
  }

  /** Word k of page p. */
  function Entry(m: Mem, p: nat, k: nat): Word {
    if MemOk(m) && p < m.size && k < WORDS then PageAt(m, p)[k] else 0
  }

  function Put(m: Mem, p: nat, k: nat, v: Word): (r: Mem)
    requires MemOk(m) && p < m.size && k < WORDS
    ensures MemOk(r) && r.size == m.size && r.used == m.used && r.count == m.count
  {
    SetPage(m, p, PageAt(m, p)[k := v])
  }

  const FIRST: nat := 32

  /** The frames behind the first n entries of a table. */
  function TablePages(m: Mem, pt: nat, n: nat): seq<nat> {
    if n == 0 then [] else TablePages(m, pt, n - 1) + (if Present(Entry(m, pt, n - 1)) then [Frame(Entry(m, pt, n - 1))] else [])
  }

  /** The frames and tables behind the user entries below n of a directory. */
  function DirPages(m: Mem, pd: nat, n: nat): seq<nat> {
    if n <= FIRST then []
    else
      var e := Entry(m, pd, n - 1);
      DirPages(m, pd, n - 1) + (if Present(e) then TablePages(m, Frame(e), WORDS) + [Frame(e)] else [])
  }

  predicate TableOk(m: Mem, pt: nat) {
    pt in m.used && forall j: nat | j < WORDS :: Present(Entry(m, pt, j)) ==> Frame(Entry(m, pt, j)) in m.used
  }

  /** Every table and frame a directory refers to is a page in use. */
  predicate SpaceOk(m: Mem, pd: nat) {
    pd in m.used && forall i: nat | FIRST <= i < WORDS :: Present(Entry(m, pd, i)) ==> TableOk(m, Frame(Entry(m, pd, i)))
  }

  /** What a user address finds: the flags on both levels and the page's contents, or nothing. */
  datatype View = Absent | Mapped(dirFlags: Word, flags: Word, data: seq<Word>)

  function ViewOf(m: Mem, pd: nat, i: nat, j: nat): View
    requires MemOk(m)
  {
    var d := Entry(m, pd, i);
    var t := Entry(m, Frame(d), j);
    if Present(d) && Present(t) && Frame(t) < m.size then Mapped(Flags(d), Flags(t), PageAt(m, Frame(t))) else Absent
  }

  // ----- growing memory -----

  predicate NoDup(ps: seq<nat>) {
    forall i, j | 0 <= i < j < |ps| :: ps[i] != ps[j]
  }

  /** The pages in use in m0 hold the same words in m. */
  predicate Same(m0: Mem, m: Mem) {
    && MemOk(m0) && MemOk(m) && m.size == m0.size && m0.used <= m.used
    && forall p | p in m0.used :: PageAt(m, p) == PageAt(m0, p)
  }

  /** From m0 to m exactly the pages ps were taken into use, each once, and no page used before was changed. */
  ghost predicate Grows(m0: Mem, m: Mem, ps: seq<nat>) {
    && Same(m0, m)
    && (forall p :: p in ps <==> p in m.used && p !in m0.used)
    && NoDup(ps)
    && |m.used| == |m0.used| + |ps|
    && m.count as nat == m0.count as nat + 4096 * |ps|
  }

  lemma {:induction false} FullCard(s: set<nat>, n: nat)
    requires forall p: nat | p < n :: p in s
    ensures |s| >= n
  {
    if n > 0 {
      var t := s - {n - 1};
      FullCard(t, n - 1);
      assert |t| == |s| - 1;
    }
  }

  lemma Room(m: Mem)
    requires MemOk(m) && |m.used| < m.size
    ensures Lowest(m.used, m.size, 0) < m.size
  {
    if Lowest(m.used, m.size, 0) == m.size {
      forall p: nat | p < m.size ensures p in m.used {
        if p !in m.used {
          LowestFirst(m.used, m.size, 0, p);
        }
      }
      FullCard(m.used, m.size);
    }
  }

  lemma AllocAt(m: Mem, q: nat)
    requires MemOk(m) && q < m.size && Lowest(m.used, m.size, 0) < m.size
    ensures PageAt(Alloc(m), q) == if q == Lowest(m.used, m.size, 0) then Zeros(WORDS) else PageAt(m, q)
  {
    hide PageAt, SetPage, Zeros;
    var p := Lowest(m.used, m.size, 0);
    SetPageAt(m.(used := m.used + {p}, count := Add32(m.count, 4096)), p, Zeros(WORDS), q);
    PageAtWords(m, m.(used := m.used + {p}, count := Add32(m.count, 4096)), q);
  }

  lemma PageAtWords(m: Mem, r: Mem, q: nat)
    requires MemOk(m) && MemOk(r) && q < m.size && r.size == m.size && r.words == m.words
    ensures PageAt(r, q) == PageAt(m, q)
  {
  }

  /** One allocation grows memory by one page. */
  lemma AllocGrows(m: Mem)
    requires MemOk(m) && Counted(m) && |m.used| < m.size
    ensures Grows(m, Alloc(m), [Lowest(m.used, m.size, 0)])
  {
    hide PageAt, Lowest, Zeros;
    Room(m);
    AllocUsed(m);
    BelowCard(m.used, m.size);
    forall p | p in m.used ensures PageAt(Alloc(m), p) == PageAt(m, p) {
      AllocAt(m, p);
    }
  }

  lemma AllocUsed(m: Mem)
    requires MemOk(m) && Lowest(m.used, m.size, 0) < m.size
    ensures Alloc(m).used == m.used + {Lowest(m.used, m.size, 0)} && Alloc(m).count == Add32(m.count, 4096)
  {
  }

  lemma GrowsTrans(m0: Mem, m1: Mem, m2: Mem, ps: seq<nat>, qs: seq<nat>)
    requires Grows(m0, m1, ps) && Grows(m1, m2, qs)
    ensures Grows(m0, m2, ps + qs)
  {
    hide PageAt;
    forall i, j | 0 <= i < j < |ps + qs| ensures (ps + qs)[i] != (ps + qs)[j] {
      if i < |ps| <= j {
        assert ps[i] in ps && qs[j - |ps|] in qs;
      }
    }
  }

  /** Writing to a page taken since m0 keeps the growth. */
  lemma GrowsPut(m0: Mem, m: Mem, ps: seq<nat>, p: nat, d: seq<Word>)
    requires Grows(m0, m, ps) && p < m.size && p !in m0.used && |d| == WORDS
    ensures Grows(m0, SetPage(m, p, d), ps)
  {
    hide PageAt, SetPage;
    forall q | q in m0.used ensures PageAt(SetPage(m, p, d), q) == PageAt(m0, q) {
      SetPageAt(m, p, d, q);
    }
  }

  lemma NoDupSwap(a: seq<nat>, b: seq<nat>)
    requires NoDup(a + b)
    ensures NoDup(b + a)
  {
    forall i, j | 0 <= i < j < |b + a| ensures (b + a)[i] != (b + a)[j] {
      var x := if i < |b| then |a| + i else i - |b|;
      var y := if j < |b| then |a| + j else j - |b|;
      assert (a + b)[x] == (b + a)[i] && (a + b)[y] == (b + a)[j] && x != y;
    }
  }

  lemma GrowsSwap(m0: Mem, m: Mem, a: seq<nat>, b: seq<nat>)
    requires Grows(m0, m, a + b)
    ensures Grows(m0, m, b + a)
  {
    hide PageAt, NoDup;
    NoDupSwap(a, b);
    assert forall p :: p in b + a <==> p in a + b;
  }

  // ----- pages that stay the same -----

  lemma {:induction false} TablePagesSame(m: Mem, r: Mem, pt: nat, n: nat)
    requires MemOk(m) && MemOk(r) && r.size == m.size && n <= WORDS
    requires forall j: nat | j < n :: Entry(r, pt, j) == Entry(m, pt, j)
    ensures TablePages(r, pt, n) == TablePages(m, pt, n)
  {
    if n > 0 {
      TablePagesSame(m, r, pt, n - 1);
    }
  }

  lemma EntrySame(m: Mem, r: Mem, p: nat, k: nat)
    requires MemOk(m) && MemOk(r) && r.size == m.size && (p < m.size ==> PageAt(r, p) == PageAt(m, p))
    ensures Entry(r, p, k) == Entry(m, p, k)
  {
  }

  lemma EntryPut(m: Mem, p: nat, k: nat, v: Word, q: nat, j: nat)
    requires MemOk(m) && p < m.size && k < WORDS
    ensures Entry(Put(m, p, k, v), q, j) == if q == p && j == k then v else Entry(m, q, j)
  {
    hide PageAt, SetPage;
    if q < m.size {
      SetPageAt(m, p, PageAt(m, p)[k := v], q);
    }
  }

  lemma {:induction false} InTable(m: Mem, pt: nat, n: nat, j: nat)
    requires j < n && Present(Entry(m, pt, j))
    ensures Frame(Entry(m, pt, j)) in TablePages(m, pt, n)
  {
    if j < n - 1 {
      InTable(m, pt, n - 1, j);
    }
  }

  lemma {:induction false} InDir(m: Mem, pd: nat, n: nat, i: nat)
    requires FIRST <= i < n && Present(Entry(m, pd, i))
    ensures Frame(Entry(m, pd, i)) in DirPages(m, pd, n)
    ensures forall p | p in TablePages(m, Frame(Entry(m, pd, i)), WORDS) :: p in DirPages(m, pd, n)
  {
    hide TablePages;
    if i < n - 1 {
      InDir(m, pd, n - 1, i);
    }
  }

  /** A directory's pages stay the same if its entries and its tables do. */
  lemma {:induction false} DirPagesSame(m: Mem, r: Mem, pd: nat, n: nat)
    requires MemOk(m) && MemOk(r) && r.size == m.size && n <= WORDS
    requires forall i: nat | i < n :: Entry(r, pd, i) == Entry(m, pd, i)
    requires forall p | p in DirPages(m, pd, n) && p < m.size :: PageAt(r, p) == PageAt(m, p)
    ensures DirPages(r, pd, n) == DirPages(m, pd, n)
  {
    hide PageAt, TablePages, Entry;
    if n > FIRST {
      DirPagesSame(m, r, pd, n - 1);
      var e := Entry(m, pd, n - 1);
      if Present(e) {
        assert Frame(e) in DirPages(m, pd, n);
        TableSame(m, r, Frame(e));
      }
    }
  }

  lemma TableSame(m: Mem, r: Mem, pt: nat)
    requires MemOk(m) && MemOk(r) && r.size == m.size && (pt < m.size ==> PageAt(r, pt) == PageAt(m, pt))
    ensures TablePages(r, pt, WORDS) == TablePages(m, pt, WORDS)
  {
    hide PageAt, TablePages, Entry;
    forall j: nat | j < WORDS ensures Entry(r, pt, j) == Entry(m, pt, j) {
      EntrySame(m, r, pt, j);
    }
    TablePagesSame(m, r, pt, WORDS);
  }

  // ----- copies -----

  /** Entry f in m maps a copy of the page that entry e maps in m0. */
  predicate EntryCopied(m0: Mem, e: Word, m: Mem, f: Word)
    requires MemOk(m0) && MemOk(m)
  {
    if Present(e) then
      && Present(f) && Flags(f) == Flags(e) && Frame(e) < m0.size && Frame(f) < m.size
      && PageAt(m, Frame(f)) == PageAt(m0, Frame(e))
    else f == 0
  }

  predicate TableCopied(m0: Mem, pt: nat, m: Mem, npt: nat, n: nat)
    requires MemOk(m0) && MemOk(m)
  {
    forall j: nat | j < n :: EntryCopied(m0, Entry(m0, pt, j), m, Entry(m, npt, j))
  }

  predicate TableRef(m0: Mem, e: Word, m: Mem, f: Word)
    requires MemOk(m0) && MemOk(m)
  {
    if Present(e) then Present(f) && Flags(f) == Flags(e) && TableCopied(m0, Frame(e), m, Frame(f), WORDS) else f == 2
  }

  predicate DirCopied(m0: Mem, pd: nat, m: Mem, npd: nat, n: nat)
    requires MemOk(m0) && MemOk(m)
  {
    && (forall i: nat | i < n && i < FIRST :: Entry(m, npd, i) == Entry(m0, pd, i))
    && (forall i: nat | FIRST <= i < n :: TableRef(m0, Entry(m0, pd, i), m, Entry(m, npd, i)))
  }

  /** A copied table stays a copy while its pages stay the same. */
  lemma TableKept(m0: Mem, pt: nat, m: Mem, npt: nat, n: nat, r: Mem)
    requires MemOk(m0) && MemOk(m) && MemOk(r) && m.size == r.size && n <= WORDS && npt < m.size
    requires TableCopied(m0, pt, m, npt, n)
    requires forall j: nat | j < n :: Entry(r, npt, j) == Entry(m, npt, j)
    requires forall p | p in TablePages(m, npt, n) && p < m.size :: PageAt(r, p) == PageAt(m, p)
    ensures TableCopied(m0, pt, r, npt, n)
  {
    hide PageAt, TablePages, Entry, Frame;
    forall j: nat | j < n ensures EntryCopied(m0, Entry(m0, pt, j), r, Entry(r, npt, j)) {
      assert EntryCopied(m0, Entry(m0, pt, j), m, Entry(m, npt, j));
      if Present(Entry(m0, pt, j)) {
        InTable(m, npt, n, j);
      }
    }
  }

  lemma {:induction false} CopiedCount(m0: Mem, pt: nat, m: Mem, npt: nat, n: nat)
    requires MemOk(m0) && MemOk(m) && TableCopied(m0, pt, m, npt, n)
    ensures |TablePages(m, npt, n)| == |TablePages(m0, pt, n)|
  {
    hide PageAt, Entry, Frame;
    if n > 0 {
      assert EntryCopied(m0, Entry(m0, pt, n - 1), m, Entry(m, npt, n - 1));
      CopiedCount(m0, pt, m, npt, n - 1);
    }
  }
}
