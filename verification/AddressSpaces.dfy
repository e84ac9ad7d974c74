/** Address spaces in place: creating, cloning and reaping directories and tables in physical memory. */
module AddressSpaces {
  import opened Bytes
  import opened Pages
  import opened Spaces
  import opened CloneSteps
  import opened Paging

  lemma PutWords(m: Mem, r: Mem, p: nat, k: nat, v: Word)
    requires MemOk(m) && p < m.size && k < WORDS
    requires r == m.(words := m.words[p * WORDS + k := v])
    ensures r == Put(m, p, k, v)
  {
    SpliceAt(m.words, p * WORDS, PageAt(m, p)[k := v]);
    assert r.words == Put(m, p, k, v).words;
  }

  method PutEntry(pm: Memory, p: nat, k: nat, v: Word)
    requires pm.Valid() && p < pm.pages && k < WORDS
    modifies pm.mem
    ensures pm.St() == Put(old(pm.St()), p, k, v)
  {
    hide UsedIn, SetPage;
    ghost var m := pm.St();
    pm.mem[p * WORDS + k] := v;
    PutWords(m, pm.St(), p, k, v);
  }

  method GetEntry(pm: Memory, p: nat, k: nat) returns (v: Word)
    requires pm.Valid() && p < pm.pages && k < WORDS
    ensures v == Entry(pm.St(), p, k)
  {
    hide UsedIn;
    v := pm.mem[p * WORDS + k];
  }

  /** memcpy of a whole page, word by word. */
  method CopyPage(pm: Memory, dst: nat, src: nat)
    requires pm.Valid() && dst < pm.pages && src < pm.pages && dst != src
    modifies pm.mem
    ensures pm.St() == SetPage(old(pm.St()), dst, PageAt(old(pm.St()), src))
  {
    hide UsedIn, Splice;
    ghost var m := pm.St();
    var a, b, k := dst * WORDS, src * WORDS, 0;
    CopyStart(m.words, a, b);
    while k < WORDS
      invariant k <= WORDS
      invariant pm.mem[..] == Splice(m.words, a, m.words[b..b + k])
    {
      CopyNext(m.words, a, b, k);
      ghost var was := pm.mem[..];
      pm.mem[a + k] := pm.mem[b + k];
      assert pm.mem[..] == was[a + k := was[b + k]];
      k := k + 1;
    }
  }

  lemma CopyStart(v: seq<Word>, a: nat, b: nat)
    requires a <= |v| && b <= |v|
    ensures v == Splice(v, a, v[b..b])
  {
  }

  /** One word copied; it has not been overwritten before. */
  lemma CopyNext(v: seq<Word>, a: nat, b: nat, k: nat)
    requires a + WORDS <= b || b + WORDS <= a
    requires k < WORDS && a + WORDS <= |v| && b + WORDS <= |v|
    ensures var w := Splice(v, a, v[b..b + k]); w[a + k := w[b + k]] == Splice(v, a, v[b..b + (k + 1)])
  {
    hide Splice;
    SpliceAt(v, a, v[b..b + k]);
    SpliceAt(v, a, v[b..b + (k + 1)]);
  }

  /** Allocate a page; with a free page and page 0 in use it is not the null page. */
  method NewPage(pm: Memory) returns (p: nat)
    requires pm.Valid() && 0 in pm.St().used && |pm.St().used| < pm.pages
    modifies pm, pm.bitmap, pm.mem
    ensures p == Lowest(old(pm.St()).used, pm.pages, 0) < pm.pages && p != 0 && pm.St() == Alloc(old(pm.St()))
  {
    hide UsedIn;
    ghost var m := pm.St();
    Room(m);
    var addr := pm.AllocPage();
    p := addr / 4096;
  }

  lemma {:induction false} TableCountMono(m: Mem, pt: nat, j: nat, n: nat)
    requires j < n
    ensures |TablePages(m, pt, j)| + (if Present(Entry(m, pt, j)) then 1 else 0) <= |TablePages(m, pt, n)|
  {
    hide Entry;
    if j + 1 < n {
      TableCountMono(m, pt, j, n - 1);
    }
  }

  /** The next page or entry of the table finds room. */
  lemma TableRoom(m0: Mem, pt: nat, m1: Mem, m: Mem, npt: nat, j: nat)
    requires TableInv(m0, pt, m1, m, npt, j) && j < WORDS && |m1.used| + 1 + |TablePages(m0, pt, WORDS)| <= m.size
    ensures Present(Entry(m0, pt, j)) ==> |m.used| < m.size && Frame(Entry(m0, pt, j)) < m.size
    ensures Present(Entry(m0, pt, j)) ==> Frame(Entry(m0, pt, j)) in m.used && Frame(Entry(m0, pt, j)) != npt
    ensures pt < m.size && Entry(m, pt, j) == Entry(m0, pt, j)
  {
    hide Entry, TablePages, TableCopied, PageAt, NoDup, Frame, TableOk, Same;
    GrowsParts(m1, m, [npt] + TablePages(m, npt, j));
    CopiedCount(m0, pt, m, npt, j);
    TableCountMono(m0, pt, j, WORDS);
    TableOkIn(m0, pt);
    SameParts(m0, m, pt);
    EntrySame(m0, m, pt, j);
    if Present(Entry(m0, pt, j)) {
      TableEntryUsed(m0, pt, j);
      SameParts(m0, m, Frame(Entry(m0, pt, j)));
      SameParts(m0, m1, Frame(Entry(m0, pt, j)));
    }
  }

  lemma TableOkIn(m: Mem, pt: nat)
    requires TableOk(m, pt)
    ensures pt in m.used
  {
  }

  lemma TableStart(m0: Mem, pt: nat, m1: Mem)
    requires Same(m0, m1) && TableOk(m0, pt) && Counted(m1) && |m1.used| < m1.size
    ensures TableInv(m0, pt, m1, Alloc(m1), Lowest(m1.used, m1.size, 0), 0)
  {
    hide PageAt, TableOk, Alloc, Counted;
    Room(m1);
    AllocGrows(m1);
    AllocUsed(m1);
    AllocCounted(m1);
    SameTrans(m0, m1, Alloc(m1));
    var npt := Lowest(m1.used, m1.size, 0);
    assert [npt] + TablePages(Alloc(m1), npt, 0) == [npt];
  }

  /** Copy table pt as it was in m0 into a fresh table and fresh frames. */
  method CloneTable(pm: Memory, pt: nat, ghost m0: Mem) returns (npt: nat)
    requires pm.Valid() && Counted(pm.St()) && 0 in pm.St().used && Same(m0, pm.St()) && TableOk(m0, pt)
    requires |pm.St().used| + 1 + |TablePages(m0, pt, WORDS)| <= pm.pages
    modifies pm, pm.bitmap, pm.mem
    ensures TableInv(m0, pt, old(pm.St()), pm.St(), npt, WORDS)
  {
    hide UsedIn, TableInv, TableOk, Counted, Same, TablePages, Alloc, Copied, Put, Lowest, Made, Entry, Frame, PageAt, SetPage;
    ghost var m1 := pm.St();
    TableStart(m0, pt, m1);
    npt := NewPage(pm);
    InvParts(m0, pt, m1, pm.St(), npt, 0);
    var j := 0;
    while j < WORDS
      invariant j <= WORDS && TableInv(m0, pt, m1, pm.St(), npt, j) && npt < pm.pages && 0 in pm.St().used
    {
      ghost var m := pm.St();
      TableRoom(m0, pt, m1, m, npt, j);
      var e := GetEntry(pm, pt, j);
      if e % 2 == 1 {
        StepPresent(m0, pt, m1, m, npt, j);
        var phys := NewPage(pm);
        PutEntry(pm, npt, j, Made(phys, e));
        CopyPage(pm, phys, Frame(e));
        CopiedIs(m, npt, j, e, pm.St());
      } else {
        StepAbsent(m0, pt, m1, m, npt, j);
        PutEntry(pm, npt, j, 0);
      }
      j := j + 1;
      InvParts(m0, pt, m1, pm.St(), npt, j);
    }
  }

  lemma CopiedIs(m: Mem, npt: nat, j: nat, e: Word, r: Mem)
    requires MemOk(m) && Lowest(m.used, m.size, 0) < m.size && npt < m.size && j < WORDS && Frame(e) < m.size
    requires var a := Put(Alloc(m), npt, j, Made(Lowest(m.used, m.size, 0), e)); r == SetPage(a, Lowest(m.used, m.size, 0), PageAt(a, Frame(e)))
    ensures r == Copied(m, npt, j, e)
  {
  }

  lemma InvParts(m0: Mem, pt: nat, m1: Mem, m: Mem, npt: nat, j: nat)
    requires TableInv(m0, pt, m1, m, npt, j)
    ensures npt < m.size && m1.used <= m.used && Counted(m) && |m.used| == |m1.used| + 1 + |TablePages(m, npt, j)|
  {
  }

  /** One more entry written to a page taken since m0. */
  lemma PutGrows(m0: Mem, m: Mem, ps: seq<nat>, p: nat, k: nat, v: Word)
    requires Grows(m0, m, ps) && Counted(m) && p in ps && k < WORDS
    ensures p < m.size && Grows(m0, Put(m, p, k, v), ps) && Counted(Put(m, p, k, v))
    ensures forall j: nat :: Entry(Put(m, p, k, v), p, j) == if j == k then v else Entry(m, p, j)
  {
    hide PageAt, SetPage, Entry, Same, NoDup;
    GrowsParts(m0, m, ps);
    GrowsPut(m0, m, ps, p, PageAt(m, p)[k := v]);
    SetPageFields(m, p, PageAt(m, p)[k := v]);
    forall j: nat ensures Entry(Put(m, p, k, v), p, j) == if j == k then v else Entry(m, p, j) {
      EntryPut(m, p, k, v, p, j);
    }
  }

  lemma NewGrows(m: Mem)
    requires MemOk(m) && Counted(m) && |m.used| < m.size
    ensures Grows(m, Alloc(m), [Lowest(m.used, m.size, 0)]) && Counted(Alloc(m))
  {
    hide Alloc;
    AllocGrows(m);
    AllocCounted(m);
  }

  lemma FullOrRoom(m: Mem)
    requires MemOk(m)
    ensures |m.used| <= m.size
    ensures |m.used| == m.size ==> AllocAddr(m) == 0 && Alloc(m) == m
    ensures |m.used| < m.size ==> Lowest(m.used, m.size, 0) < m.size
  {
    BelowCard(m.used, m.size);
    if |m.used| < m.size {
      Room(m);
    } else if Lowest(m.used, m.size, 0) < m.size {
      BelowCard(m.used + {Lowest(m.used, m.size, 0)}, m.size);
    }
  }

  /** A directory with no user entries and the kernel entries of directory pd; 0 if no page is free. */
  method CreateAddressSpace(pm: Memory, pd: nat) returns (npd: nat)
    requires pm.Valid() && Counted(pm.St()) && 0 in pm.St().used && pd in pm.St().used
    modifies pm, pm.bitmap, pm.mem
    ensures old(|pm.St().used|) == pm.pages ==> npd == 0 && pm.St() == old(pm.St())
    ensures old(|pm.St().used|) < pm.pages ==> npd != 0 && Counted(pm.St()) && Grows(old(pm.St()), pm.St(), [npd])
    ensures old(|pm.St().used|) < pm.pages ==> forall k: nat | k < WORDS ::
      Entry(pm.St(), npd, k) == if k < FIRST then Entry(old(pm.St()), pd, k) else 2
  {
    hide UsedIn, Counted, Alloc, Put, Lowest, Entry, PageAt, SetPage, Grows;
    ghost var m0 := pm.St();
    FullOrRoom(m0);
    npd := 0;
    if |m0.used| < pm.pages {
      NewGrows(m0);
    }
    var addr := pm.AllocPage();
    if addr == 0 {
      return;
    }
    npd := addr / 4096;
    assert npd in [npd];
    var i := 0;
    GrowsParts(m0, pm.St(), [npd]);
    while i < WORDS
      invariant i <= WORDS && Counted(pm.St()) && Grows(m0, pm.St(), [npd]) && npd < pm.pages
      invariant forall k: nat | k < i :: Entry(pm.St(), npd, k) == 2
    {
      PutGrows(m0, pm.St(), [npd], npd, i, 2);
      PutEntry(pm, npd, i, 2);
      i := i + 1;
    }
    i := 0;
    while i < FIRST
      invariant i <= FIRST && Counted(pm.St()) && Grows(m0, pm.St(), [npd]) && npd < pm.pages
      invariant forall k: nat | k < WORDS :: Entry(pm.St(), npd, k) == if k < i then Entry(m0, pd, k) else 2
    {
      GrowsParts(m0, pm.St(), [npd]);
      SameParts(m0, pm.St(), pd);
      EntrySame(m0, pm.St(), pd, i);
      var e := GetEntry(pm, pd, i);
      PutGrows(m0, pm.St(), [npd], npd, i, e);
      PutEntry(pm, npd, i, e);
      i := i + 1;
    }
  }

  lemma {:induction false} DirCount(m0: Mem, pd: nat, m: Mem, npd: nat, n: nat)
    requires MemOk(m0) && MemOk(m) && DirCopied(m0, pd, m, npd, n)
    ensures |DirPages(m, npd, n)| == |DirPages(m0, pd, n)|
  {
    hide TablePages, TableCopied, Entry, Frame, Flags;
    if n > FIRST {
      DirCount(m0, pd, m, npd, n - 1);
      var e, f := Entry(m0, pd, n - 1), Entry(m, npd, n - 1);
      assert TableRef(m0, e, m, f);
      if Present(e) {
        CopiedCount(m0, Frame(e), m, Frame(f), WORDS);
      }
    }
  }

  lemma {:induction false} DirCountMono(m: Mem, pd: nat, i: nat, n: nat)
    requires FIRST <= i < n
    ensures |DirPages(m, pd, i)| <= |DirPages(m, pd, n)|
    ensures Present(Entry(m, pd, i)) ==> |DirPages(m, pd, i)| + |TablePages(m, Frame(Entry(m, pd, i)), WORDS)| + 1 <= |DirPages(m, pd, n)|
  {
    hide TablePages, Entry, Frame;
    if i + 1 < n {
      DirCountMono(m, pd, i, n - 1);
    }
  }

  lemma DirRoom(m0: Mem, pd: nat, m: Mem, npd: nat, i: nat)
    requires DirInv(m0, pd, m, npd, i) && FIRST <= i < WORDS && |m0.used| + 1 + |DirPages(m0, pd, WORDS)| <= m.size
    ensures var e := Entry(m0, pd, i);
      Entry(m, pd, i) == e && pd < m.size && (Present(e) ==> TableOk(m0, Frame(e)) && |m.used| + 1 + |TablePages(m0, Frame(e), WORDS)| <= m.size)
  {
    hide Entry, TablePages, DirPages, DirCopied, PageAt, NoDup, Frame, TableOk, Same, SpaceOk;
    GrowsParts(m0, m, [npd] + DirPages(m, npd, i));
    DirCount(m0, pd, m, npd, i);
    DirCountMono(m0, pd, i, WORDS);
    PdUsed(m0, pd);
    SameParts(m0, m, pd);
    EntrySame(m0, m, pd, i);
    if Present(Entry(m0, pd, i)) {
      SpaceOkEntry(m0, pd, i);
    }
  }

  lemma DirStart(m0: Mem, pd: nat, m: Mem, npd: nat)
    requires SpaceOk(m0, pd) && Counted(m) && Grows(m0, m, [npd])
    requires forall k: nat | k < WORDS :: Entry(m, npd, k) == if k < FIRST then Entry(m0, pd, k) else 2
    ensures DirInv(m0, pd, m, npd, FIRST)
  {
    hide Entry, SpaceOk, PageAt, NoDup, Same, Counted;
    GrowsParts(m0, m, [npd]);
    assert npd in [npd];
    assert [npd] + DirPages(m, npd, FIRST) == [npd];
  }

  lemma DirParts(m0: Mem, pd: nat, m: Mem, npd: nat, i: nat)
    requires DirInv(m0, pd, m, npd, i)
    ensures npd < m.size && m0.used <= m.used && Counted(m) && Same(m0, m)
  {
  }

  lemma DirDone(m0: Mem, pd: nat, m: Mem, npd: nat)
    requires DirInv(m0, pd, m, npd, WORDS)
    ensures Cloned(m0, pd, m, npd)
  {
    hide DirCopied, DirPages, Grows;
    GrowsSwap(m0, m, [npd], DirPages(m, npd, WORDS));
  }

  /** Clone directory pd; 0 if no page is free. */
  method CloneAddressSpace(pm: Memory, pd: nat) returns (npd: nat)
    requires pm.Valid() && Counted(pm.St()) && 0 in pm.St().used && SpaceOk(pm.St(), pd)
    requires |pm.St().used| == pm.pages || |pm.St().used| + 1 + |DirPages(pm.St(), pd, WORDS)| <= pm.pages
    modifies pm, pm.bitmap, pm.mem
    ensures old(|pm.St().used|) == pm.pages ==> npd == 0 && pm.St() == old(pm.St())
    ensures old(|pm.St().used|) < pm.pages ==> npd != 0 && Counted(pm.St()) && Cloned(old(pm.St()), pd, pm.St(), npd)
  {
    hide UsedIn, Counted, Alloc, Put, Lowest, Entry, PageAt, SetPage, DirInv, Same, Made, Frame, TableOk, SpaceOk, Cloned, TablePages, DirPages, Grows, TableInv;
    ghost var m0 := pm.St();
    PdUsed(m0, pd);
    npd := CreateAddressSpace(pm, pd);
    if npd == 0 {
      return;
    }
    DirStart(m0, pd, pm.St(), npd);
    DirParts(m0, pd, pm.St(), npd, FIRST);
    var i := FIRST;
    while i < WORDS
      invariant FIRST <= i <= WORDS && npd < pm.pages && DirInv(m0, pd, pm.St(), npd, i)
    {
      ghost var m := pm.St();
      DirParts(m0, pd, m, npd, i);
      DirRoom(m0, pd, m, npd, i);
      var e := GetEntry(pm, pd, i);
      if e % 2 == 1 {
        var npt := CloneTable(pm, Frame(e), m0);
        DirPresent(m0, pd, m, npd, i, pm.St(), npt);
        PutEntry(pm, npd, i, Made(npt, e));
      } else {
        DirAbsent(m0, pd, m, npd, i);
      }
      i := i + 1;
    }
    DirDone(m0, pd, pm.St(), npd);
    DirParts(m0, pd, pm.St(), npd, i);
  }

  /** Free every frame, every table and the directory itself, as the timer does for a dead task. */
  method ReapSpace(pm: Memory, pd: nat)
    requires pm.Valid() && SpaceOk(pm.St(), pd)
    modifies pm, pm.bitmap
    ensures pm.St() == Reaped(old(pm.St()), pd)
  {
    hide UsedIn, Free, Entry, PageAt, TablePages, DirPages, SpaceOk, Frame, TableOk, FreeAll;
    ghost var m := pm.St();
    PdUsed(m, pd);
    DirZero(m, pd);
    var i := FIRST;
    while i < WORDS
      invariant FIRST <= i <= WORDS && pm.St() == FreeAll(m, DirPages(m, pd, i))
    {
      EntryFreed(m, pm.St(), pd, i);
      DirUnfold(m, pd, i);
      assert DirPages(m, pd, i) + [] == DirPages(m, pd, i);
      var e := GetEntry(pm, pd, i);
      if e % 2 == 1 {
        SpaceOkEntry(m, pd, i);
        ghost var ds := DirPages(m, pd, i);
        var pt := Frame(e);
        var j := 0;
        TableZero(m, pt, ds);
        while j < WORDS
          invariant j <= WORDS && pm.St() == FreeAll(m, ds + TablePages(m, pt, j))
        {
          EntryFreed(m, pm.St(), pt, j);
          TableUnfold(m, pt, j);
          assert TablePages(m, pt, j) + [] == TablePages(m, pt, j);
          var t := GetEntry(pm, pt, j);
          if t % 2 == 1 {
            FreeAllNext(m, ds + TablePages(m, pt, j), Frame(t));
            assert ds + TablePages(m, pt, j + 1) == ds + TablePages(m, pt, j) + [Frame(t)];
            pm.FreePage(Frame(t) * 4096);
          }
          j := j + 1;
        }
        FreeAllNext(m, ds + TablePages(m, pt, j), pt);
        assert ds + (TablePages(m, pt, WORDS) + [pt]) == ds + TablePages(m, pt, WORDS) + [pt];
        pm.FreePage(pt * 4096);
      }
      i := i + 1;
    }
    FreeAllNext(m, DirPages(m, pd, WORDS), pd);
    pm.FreePage(pd * 4096);
  }

  lemma DirZero(m: Mem, pd: nat)
    requires MemOk(m)
    ensures FreeAll(m, DirPages(m, pd, FIRST)) == m
  {
  }

  lemma TableZero(m: Mem, pt: nat, ds: seq<nat>)
    ensures ds + TablePages(m, pt, 0) == ds
  {
  }

  lemma TableUnfold(m: Mem, pt: nat, j: nat)
    ensures TablePages(m, pt, j + 1) == TablePages(m, pt, j) + (if Present(Entry(m, pt, j)) then [Frame(Entry(m, pt, j))] else [])
  {
  }

  lemma EntryFreed(m: Mem, r: Mem, p: nat, k: nat)
    requires MemOk(m) && MemOk(r) && r.size == m.size && r.words == m.words
    ensures Entry(r, p, k) == Entry(m, p, k)
  {
    if p < m.size {
      PageAtWords(m, r, p);
    }
  }
}
