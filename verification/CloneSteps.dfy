/** One step of cloning: what allocating, copying and entering one page, or one whole table, adds to the copy. */
module CloneSteps {
  import opened Bytes
  import opened Pages
  import opened Spaces

  /** A table entry or directory entry made of a page and the flags of another entry. */
  function Made(p: nat, e: Word): (v: Word)
    requires p < MAXPAGES
    ensures Frame(v) == p && Flags(v) == Flags(e) && (Present(v) <==> Present(e))
  {
    LowBit(e);
    Join(p, Flags(e))
  }

  function Join(p: nat, r: Word): (v: Word)
    requires p < MAXPAGES && r < 4096
    ensures Frame(v) == p && Flags(v) == r && (Present(v) <==> Present(r))
  {
    MadeIs(p, r);
    p * 4096 + r
  }

  lemma LowBit(e: Word)
    ensures Flags(e) < 4096 && (Present(Flags(e)) <==> Present(e))
  {
  }

  lemma MadeIs(p: nat, r: nat)
    requires r < 4096
    ensures (p * 4096 + r) / 4096 == p && (p * 4096 + r) % 4096 == r && (p * 4096 + r) % 2 == r % 2
  {
  }

  /** The first j entries of table pt of m0 are copied to table npt, in pages taken since m1. */
  ghost predicate TableInv(m0: Mem, pt: nat, m1: Mem, m: Mem, npt: nat, j: nat) {
    && MemOk(m0) && MemOk(m) && Same(m0, m1) && Same(m0, m) && Counted(m) && TableOk(m0, pt)
    && npt < m.size && npt in m.used && npt !in m1.used
    && Grows(m1, m, [npt] + TablePages(m, npt, j))
    && TableCopied(m0, pt, m, npt, j)
  }

  function Copied(m: Mem, npt: nat, j: nat, e: Word): (r: Mem)
    requires MemOk(m) && Lowest(m.used, m.size, 0) < m.size && npt < m.size && j < WORDS && Frame(e) < m.size
  {
    var f := Lowest(m.used, m.size, 0);
    var a := Put(Alloc(m), npt, j, Made(f, e));
    SetPage(a, f, PageAt(a, Frame(e)))
  }

  lemma CopiedAt(m: Mem, npt: nat, j: nat, e: Word, q: nat)
    requires MemOk(m) && Lowest(m.used, m.size, 0) < m.size && npt < m.size && j < WORDS && Frame(e) < m.size && q < m.size
    requires npt in m.used && Frame(e) in m.used && npt != Frame(e)
    ensures var c := Copied(m, npt, j, e); var f := Lowest(m.used, m.size, 0);
      MemOk(c) && c.size == m.size && PageAt(c, q) == if q == f then PageAt(m, Frame(e)) else if q == npt then PageAt(m, npt)[j := Made(f, e)] else PageAt(m, q)
  {
    hide PageAt, SetPage, Alloc, Made, Frame;
    var f := Lowest(m.used, m.size, 0);
    var a := Put(Alloc(m), npt, j, Made(f, e));
    AllocAt(m, q);
    AllocAt(m, npt);
    AllocAt(m, Frame(e));
    SetPageAt(Alloc(m), npt, PageAt(Alloc(m), npt)[j := Made(f, e)], q);
    SetPageAt(Alloc(m), npt, PageAt(Alloc(m), npt)[j := Made(f, e)], Frame(e));
    SetPageAt(a, f, PageAt(a, Frame(e)), q);
  }

  lemma EntryOfPage(m: Mem, p: nat, k: nat)
    requires MemOk(m) && p < m.size && k < WORDS
    ensures Entry(m, p, k) == PageAt(m, p)[k]
  {
  }

  lemma CopiedEntry(m: Mem, npt: nat, j: nat, e: Word, k: nat)
    requires MemOk(m) && Lowest(m.used, m.size, 0) < m.size && npt < m.size && j < WORDS && Frame(e) < m.size
    requires npt in m.used && Frame(e) in m.used && npt != Frame(e) && k < WORDS
    ensures Entry(Copied(m, npt, j, e), npt, k) == if k == j then Made(Lowest(m.used, m.size, 0), e) else Entry(m, npt, k)
  {
    hide PageAt, Copied, Made, Frame, Entry;
    CopiedAt(m, npt, j, e, npt);
    EntryOfPage(Copied(m, npt, j, e), npt, k);
    EntryOfPage(m, npt, k);
  }

  lemma CopiedGrows(m1: Mem, m: Mem, ps: seq<nat>, npt: nat, j: nat, e: Word)
    requires Grows(m1, m, ps) && Counted(m) && npt in ps && npt < m.size && j < WORDS && Frame(e) < m.size && |m.used| < m.size
    ensures Lowest(m.used, m.size, 0) < m.size
    ensures Counted(Copied(m, npt, j, e))
    ensures Grows(m1, Copied(m, npt, j, e), ps + [Lowest(m.used, m.size, 0)])
    ensures Copied(m, npt, j, e).used == m.used + {Lowest(m.used, m.size, 0)}
  {
    hide PageAt, SetPage, Alloc, Made, Frame, NoDup, Same;
    GrowsParts(m1, m, ps);
    Room(m);
    var f := Lowest(m.used, m.size, 0);
    var a := Alloc(m);
    AllocGrows(m);
    AllocCounted(m);
    GrowsTrans(m1, m, a, ps, [f]);
    assert npt in ps + [f] && f in ps + [f];
    AllocUsed(m);
    var b := Put(a, npt, j, Made(f, e));
    GrowsPut(m1, a, ps + [f], npt, PageAt(a, npt)[j := Made(f, e)]);
    SetPageFields(a, npt, PageAt(a, npt)[j := Made(f, e)]);
    GrowsPut(m1, b, ps + [f], f, PageAt(b, Frame(e)));
    SetPageFields(b, f, PageAt(b, Frame(e)));
  }

  lemma SetPageFields(m: Mem, p: nat, d: seq<Word>)
    requires MemOk(m) && p < m.size && |d| == WORDS
    ensures SetPage(m, p, d).used == m.used && SetPage(m, p, d).count == m.count && SetPage(m, p, d).size == m.size
  {
  }

  lemma SameTrans(m0: Mem, m1: Mem, m2: Mem)
    requires Same(m0, m1) && Same(m1, m2)
    ensures Same(m0, m2)
  {
    hide PageAt;
  }

  lemma TableNext(m: Mem, r: Mem, npt: nat, j: nat)
    requires MemOk(m) && MemOk(r) && r.size == m.size && j < WORDS
    requires forall k: nat | k < j :: Entry(r, npt, k) == Entry(m, npt, k)
    ensures TablePages(r, npt, j + 1) == TablePages(m, npt, j) + (if Present(Entry(r, npt, j)) then [Frame(Entry(r, npt, j))] else [])
  {
    hide Entry, Frame;
    TablePagesSame(m, r, npt, j);
  }

  lemma CopiedNext(m0: Mem, pt: nat, m: Mem, npt: nat, j: nat)
    requires MemOk(m0) && MemOk(m) && TableCopied(m0, pt, m, npt, j) && EntryCopied(m0, Entry(m0, pt, j), m, Entry(m, npt, j))
    ensures TableCopied(m0, pt, m, npt, j + 1)
  {
    hide EntryCopied, Entry;
  }

  lemma TableEntryUsed(m: Mem, pt: nat, j: nat)
    requires TableOk(m, pt) && j < WORDS && Present(Entry(m, pt, j))
    ensures Frame(Entry(m, pt, j)) in m.used
  {
  }

  /** The page of a present entry is copied. */
  lemma StepPresent(m0: Mem, pt: nat, m1: Mem, m: Mem, npt: nat, j: nat)
    requires TableInv(m0, pt, m1, m, npt, j) && j < WORDS && Present(Entry(m0, pt, j)) && |m.used| < m.size
    ensures Frame(Entry(m0, pt, j)) < m.size && Lowest(m.used, m.size, 0) < m.size
    ensures TableInv(m0, pt, m1, Copied(m, npt, j, Entry(m0, pt, j)), npt, j + 1)
  {
    hide PageAt, Entry, Copied, Made, Frame, TableOk, NoDup, Present, TableCopied, TablePages, Counted, Grows, Same;
    var e := Entry(m0, pt, j);
    TableEntryUsed(m0, pt, j);
    SameParts(m0, m, Frame(e));
    SameParts(m0, m1, Frame(e));
    var f := Lowest(m.used, m.size, 0);
    var ps := [npt] + TablePages(m, npt, j);
    CopiedGrows(m1, m, ps, npt, j, e);
    var c := Copied(m, npt, j, e);
    GrowsParts(m1, m, ps);
    GrowsParts(m1, c, ps + [f]);
    SameTrans(m0, m1, c);
    forall k: nat | k < WORDS ensures Entry(c, npt, k) == if k == j then Made(f, e) else Entry(m, npt, k) {
      CopiedEntry(m, npt, j, e, k);
    }
    TableNext(m, c, npt, j);
    assert ps + [f] == [npt] + TablePages(c, npt, j + 1);
    forall q | q in TablePages(m, npt, j) && q < m.size ensures PageAt(c, q) == PageAt(m, q) {
      assert q in ps && q != f;
      CopiedAt(m, npt, j, e, q);
      NotFirst(npt, TablePages(m, npt, j), q);
    }
    TableKept(m0, pt, m, npt, j, c);
    CopiedAt(m, npt, j, e, f);
    EntryIsCopied(m0, e, c, Entry(c, npt, j));
    CopiedNext(m0, pt, c, npt, j);
  }

  lemma EntryIsCopied(m0: Mem, e: Word, m: Mem, f: Word)
    requires MemOk(m0) && MemOk(m) && Present(e) && Present(f) && Flags(f) == Flags(e) && Frame(e) < m0.size && Frame(f) < m.size
    requires PageAt(m, Frame(f)) == PageAt(m0, Frame(e))
    ensures EntryCopied(m0, e, m, f)
  {
  }

  lemma NotFirst(p: nat, ps: seq<nat>, q: nat)
    requires NoDup([p] + ps) && q in ps
    ensures q != p
  {
    var k :| 0 <= k < |ps| && ps[k] == q;
    assert ([p] + ps)[0] == p && ([p] + ps)[k + 1] == q;
  }

  lemma SameParts(m0: Mem, m: Mem, p: nat)
    requires Same(m0, m) && p in m0.used
    ensures MemOk(m) && MemOk(m0) && m.size == m0.size && p in m.used && p < m.size && PageAt(m, p) == PageAt(m0, p)
  {
  }

  lemma GrowsParts(m0: Mem, m: Mem, ps: seq<nat>)
    requires Grows(m0, m, ps)
    ensures Same(m0, m) && NoDup(ps) && forall p :: p in ps <==> p in m.used && p !in m0.used
    ensures MemOk(m) && m.size == m0.size && |m.used| == |m0.used| + |ps|
  {
  }

  /** An absent entry is copied as 0. */
  lemma StepAbsent(m0: Mem, pt: nat, m1: Mem, m: Mem, npt: nat, j: nat)
    requires TableInv(m0, pt, m1, m, npt, j) && j < WORDS && !Present(Entry(m0, pt, j))
    ensures TableInv(m0, pt, m1, Put(m, npt, j, 0), npt, j + 1)
  {
    hide PageAt, Entry, Made, Frame, TableOk, NoDup, TableCopied, TablePages, Grows, SetPage;
    var c := Put(m, npt, j, 0);
    var ps := [npt] + TablePages(m, npt, j);
    GrowsPut(m1, m, ps, npt, PageAt(m, npt)[j := 0]);
    GrowsParts(m1, m, ps);
    GrowsParts(m1, c, ps);
    SameTrans(m0, m1, c);
    forall k: nat | k < WORDS ensures Entry(c, npt, k) == if k == j then 0 else Entry(m, npt, k) {
      EntryPut(m, npt, j, 0, npt, k);
    }
    TableNext(m, c, npt, j);
    assert ps == [npt] + TablePages(c, npt, j + 1);
    forall q | q in TablePages(m, npt, j) && q < m.size ensures PageAt(c, q) == PageAt(m, q) {
      NotFirst(npt, TablePages(m, npt, j), q);
      SetPageAt(m, npt, PageAt(m, npt)[j := 0], q);
    }
    TableKept(m0, pt, m, npt, j, c);
    CopiedNext(m0, pt, c, npt, j);
  }

  // ----- directories -----

  /** The entries below i of directory pd of m0 are copied to npd, in pages taken since m0; the rest are empty. */
  ghost predicate DirInv(m0: Mem, pd: nat, m: Mem, npd: nat, i: nat) {
    && MemOk(m0) && MemOk(m) && Counted(m) && SpaceOk(m0, pd)
    && npd < m.size && npd in m.used && npd !in m0.used
    && Grows(m0, m, [npd] + DirPages(m, npd, i))
    && DirCopied(m0, pd, m, npd, i)
    && (forall k: nat | i <= k < WORDS :: Entry(m, npd, k) == 2)
  }

  lemma {:induction false} DirNext(m: Mem, r: Mem, npd: nat, i: nat)
    requires MemOk(m) && MemOk(r) && r.size == m.size && FIRST <= i < WORDS
    requires forall k: nat | k < i :: Entry(r, npd, k) == Entry(m, npd, k)
    requires forall p | p in DirPages(m, npd, i) && p < m.size :: PageAt(r, p) == PageAt(m, p)
    ensures var e := Entry(r, npd, i);
      DirPages(r, npd, i + 1) == DirPages(m, npd, i) + (if Present(e) then TablePages(r, Frame(e), WORDS) + [Frame(e)] else [])
  {
    hide Entry, Frame, PageAt, TablePages, DirPages;
    DirPagesSame(m, r, npd, i);
    DirUnfold(r, npd, i);
  }

  lemma DirUnfold(m: Mem, pd: nat, i: nat)
    requires FIRST <= i
    ensures var e := Entry(m, pd, i);
      DirPages(m, pd, i + 1) == DirPages(m, pd, i) + (if Present(e) then TablePages(m, Frame(e), WORDS) + [Frame(e)] else [])
  {
    hide Entry, Frame, TablePages;
  }

  lemma TableRefKept(m0: Mem, e: Word, m: Mem, f: Word, r: Mem)
    requires MemOk(m0) && MemOk(m) && MemOk(r) && r.size == m.size && TableRef(m0, e, m, f) && Frame(f) < m.size
    requires Present(f) ==> PageAt(r, Frame(f)) == PageAt(m, Frame(f))
    requires Present(f) ==> forall p | p in TablePages(m, Frame(f), WORDS) && p < m.size :: PageAt(r, p) == PageAt(m, p)
    ensures TableRef(m0, e, r, f)
  {
    hide PageAt, Entry, TablePages, Frame, Flags, TableCopied;
    if Present(e) {
      forall j: nat | j < WORDS ensures Entry(r, Frame(f), j) == Entry(m, Frame(f), j) {
        EntrySame(m, r, Frame(f), j);
      }
      TableKept(m0, Frame(e), m, Frame(f), WORDS, r);
    }
  }

  /** The copy made so far stays one while its pages and the entries below i stay the same. */
  lemma DirKept(m0: Mem, pd: nat, m: Mem, npd: nat, i: nat, r: Mem)
    requires MemOk(m0) && MemOk(m) && MemOk(r) && r.size == m.size && i <= WORDS && DirCopied(m0, pd, m, npd, i)
    requires forall k: nat | k < i :: Entry(r, npd, k) == Entry(m, npd, k)
    requires forall p | p in DirPages(m, npd, i) :: p < m.size && PageAt(r, p) == PageAt(m, p)
    ensures DirCopied(m0, pd, r, npd, i)
  {
    hide PageAt, Entry, TablePages, Frame, TableRef, DirPages, Present;
    forall k: nat | FIRST <= k < i ensures TableRef(m0, Entry(m0, pd, k), r, Entry(r, npd, k)) {
      var f := Entry(m, npd, k);
      assert TableRef(m0, Entry(m0, pd, k), m, f);
      if Present(f) {
        InDir(m, npd, i, k);
        TableRefKept(m0, Entry(m0, pd, k), m, f, r);
      } else {
        AbsentRef(m0, Entry(m0, pd, k), m, f, r);
      }
    }
  }

  lemma AbsentRef(m0: Mem, e: Word, m: Mem, f: Word, r: Mem)
    requires MemOk(m0) && MemOk(m) && MemOk(r) && TableRef(m0, e, m, f) && !Present(f)
    ensures TableRef(m0, e, r, f)
  {
  }

  lemma DirCopiedNext(m0: Mem, pd: nat, m: Mem, npd: nat, i: nat)
    requires MemOk(m0) && MemOk(m) && DirCopied(m0, pd, m, npd, i) && i >= FIRST
    requires TableRef(m0, Entry(m0, pd, i), m, Entry(m, npd, i))
    ensures DirCopied(m0, pd, m, npd, i + 1)
  {
    hide TableRef, Entry;
  }

  lemma DirAbsent(m0: Mem, pd: nat, m: Mem, npd: nat, i: nat)
    requires DirInv(m0, pd, m, npd, i) && FIRST <= i < WORDS && !Present(Entry(m0, pd, i))
    ensures DirInv(m0, pd, m, npd, i + 1)
  {
    hide PageAt, Entry, TablePages, Frame, DirPages, DirCopied, Grows, SpaceOk, Counted;
    assert Entry(m, npd, i) == 2;
    DirUnfold(m, npd, i);
    assert DirPages(m, npd, i + 1) == DirPages(m, npd, i);
    RefAbsent(m0, Entry(m0, pd, i), m);
    DirCopiedNext(m0, pd, m, npd, i);
  }

  lemma RefAbsent(m0: Mem, e: Word, m: Mem)
    requires MemOk(m0) && MemOk(m) && !Present(e)
    ensures TableRef(m0, e, m, 2)
  {
  }

  /** A copied table (in m2, taken since m) is entered into the new directory. */
  lemma DirPresent(m0: Mem, pd: nat, m: Mem, npd: nat, i: nat, m2: Mem, npt: nat)
    requires DirInv(m0, pd, m, npd, i) && FIRST <= i < WORDS && Present(Entry(m0, pd, i))
    requires TableInv(m0, Frame(Entry(m0, pd, i)), m, m2, npt, WORDS)
    ensures npd < m2.size && npt < MAXPAGES
    ensures DirInv(m0, pd, Put(m2, npd, i, Made(npt, Entry(m0, pd, i))), npd, i + 1)
  {
    hide PageAt, Entry, TablePages, Frame, DirPages, DirCopied, Grows, SpaceOk, Counted, TableCopied, TableOk, SetPage, NoDup, Made;
    var e := Entry(m0, pd, i);
    var ds, ts := DirPages(m, npd, i), TablePages(m2, npt, WORDS);
    SameParts(m, m2, npd) by { GrowsParts(m, m2, [npt] + ts); }
    var v := Made(npt, e);
    var c := Put(m2, npd, i, v);
    GrowsParts(m0, m, [npd] + ds);
    GrowsSwap(m, m2, [npt], ts);
    GrowsParts(m, m2, ts + [npt]);
    GrowsTrans(m0, m, m2, [npd] + ds, ts + [npt]);
    GrowsParts(m0, m2, [npd] + ds + (ts + [npt]));
    GrowsPut(m0, m2, [npd] + ds + (ts + [npt]), npd, PageAt(m2, npd)[i := v]);
    forall k: nat | k < WORDS ensures Entry(c, npd, k) == if k == i then v else Entry(m, npd, k) {
      EntryPut(m2, npd, i, v, npd, k);
      EntrySame(m, m2, npd, k);
    }
    forall q | q in ds ensures q < m.size && PageAt(c, q) == PageAt(m, q) {
      NotFirst(npd, ds, q);
      SameParts(m, m2, q) by { assert q in [npd] + ds; }
      SetPageAt(m2, npd, PageAt(m2, npd)[i := v], q);
    }
    forall q | q in ts + [npt] ensures q < m2.size && PageAt(c, q) == PageAt(m2, q) {
      SetPageAt(m2, npd, PageAt(m2, npd)[i := v], q);
    }
    DirNext(m, c, npd, i);
    assert npt in ts + [npt];
    TableSame(m2, c, npt);
    assert [npd] + ds + (ts + [npt]) == [npd] + (ds + (ts + [npt]));
    DirKept(m0, pd, m, npd, i, c);
    RefPresent(m0, e, m2, npt, v);
    forall q | q in ts && q < m2.size ensures PageAt(c, q) == PageAt(m2, q) {
      assert q in ts + [npt];
    }
    TableRefKept(m0, e, m2, v, c);
    DirCopiedNext(m0, pd, c, npd, i);
    SetPageFields(m2, npd, PageAt(m2, npd)[i := v]);
    CountedFields(m2, c);
  }

  lemma CountedFields(m: Mem, r: Mem)
    requires r.used == m.used && r.count == m.count && Counted(m)
    ensures Counted(r)
  {
  }

  lemma RefPresent(m0: Mem, e: Word, m: Mem, npt: nat, v: Word)
    requires MemOk(m0) && MemOk(m) && Present(e) && Present(v) && Flags(v) == Flags(e) && Frame(v) == npt
    requires TableCopied(m0, Frame(e), m, npt, WORDS)
    ensures TableRef(m0, e, m, v)
  {
  }
}
