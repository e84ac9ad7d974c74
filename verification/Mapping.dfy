/** Mapping one page: the address mapped finds it, every other user address finds what it found before. */
module Mapping {
  import opened Bits
  import opened Pages
  import opened Spaces
  import opened CloneSteps
  import opened Paging
  import opened AddressSpaces

  /** No table of the directory is the directory itself, another table, or a page that some address maps. */
  predicate TableApart(m: Mem, pd: nat, i: nat, p: nat) {
    Present(Entry(m, pd, i)) ==> Frame(Entry(m, pd, i)) != p
  }

  predicate PageApart(m: Mem, pd: nat, i: nat, p: nat) {
    p != pd && TableApart(m, pd, i, p)
  }

  predicate FrameIs(m: Mem, pd: nat, i: nat, j: nat, p: nat) {
    Present(Entry(m, pd, i)) && Present(Entry(m, Frame(Entry(m, pd, i)), j)) && Frame(Entry(m, Frame(Entry(m, pd, i)), j)) == p
  }

  ghost predicate TreeOk(m: Mem, pd: nat) {
    && (forall i: nat | FIRST <= i < WORDS :: TableApart(m, pd, i, pd))
    && (forall i: nat, k: nat | FIRST <= i < WORDS && FIRST <= k < WORDS && i != k && Present(Entry(m, pd, k)) :: TableApart(m, pd, i, Frame(Entry(m, pd, k))))
    && (forall i: nat, k: nat, j: nat, p: nat | FIRST <= i < WORDS && FIRST <= k < WORDS && j < WORDS && FrameIs(m, pd, k, j, p) :: PageApart(m, pd, i, p))
  }

  /** The directory entry for a fresh table: present, writable, user. */
  const NEWTABLE: Word := 7

  /** A fresh table's entry sets the bits for present, writable and user (0, 1 and 2) and no other flag bit. */
  lemma NewTableBits(p: nat, k: nat)
    requires p < MAXPAGES && k < 12
    ensures BitOf(Made(p, NEWTABLE), k) <==> k == 0 || k == 1 || k == 2
    ensures Made(p, NEWTABLE) / 4096 == p
  {
    hide Made;
    PowTwelve();
    assert Made(p, NEWTABLE) == p * 4096 + 7;
    BitBelow(p, 7, 12, k);
    SevenBits(k);
  }

  lemma PowTwelve()
    ensures Pow2(12) == 4096
  {
    assert Pow2(6) == 64;
  }

  lemma SevenBits(k: nat)
    ensures BitOf(7, k) <==> k < 3
  {
    if k >= 3 {
      ZeroBits(k - 3);
      assert BitOf(1, k - 2) == BitOf(0, k - 3);
      assert BitOf(3, k - 1) == BitOf(1, k - 2);
    }
  }

  /** vmm_map_page_ex: a fresh table if there is none, then the entry. */
  function Map(m: Mem, pd: nat, i: nat, j: nat, v: Word): (r: Mem)
    requires MemOk(m) && pd < m.size && i < WORDS && j < WORDS
    requires if Present(Entry(m, pd, i)) then Frame(Entry(m, pd, i)) < m.size else Lowest(m.used, m.size, 0) < m.size
  {
    if Present(Entry(m, pd, i)) then Put(m, Frame(Entry(m, pd, i)), j, v)
    else
      var f := Lowest(m.used, m.size, 0);
      Put(Put(Alloc(m), pd, i, Made(f, NEWTABLE)), f, j, v)
  }

  method MapPage(pm: Memory, pd: nat, i: nat, j: nat, v: Word)
    requires pm.Valid() && 0 in pm.St().used && pd in pm.St().used && i < WORDS && j < WORDS
    requires if Present(Entry(pm.St(), pd, i)) then Frame(Entry(pm.St(), pd, i)) < pm.pages else |pm.St().used| < pm.pages
    modifies pm, pm.bitmap, pm.mem
    ensures pd < pm.pages && (Present(old(Entry(pm.St(), pd, i))) || Lowest(old(pm.St()).used, pm.pages, 0) < pm.pages)
    ensures pm.St() == Map(old(pm.St()), pd, i, j, v)
  {
    hide UsedIn, Put, Alloc, Lowest, Made, Entry, Frame;
    ghost var m := pm.St();
    var e := GetEntry(pm, pd, i);
    if e % 2 == 0 {
      var pt := NewPage(pm);
      var k := 0;
      while k < WORDS
        invariant k <= WORDS && pm.St() == Alloc(m)
      {
        ZeroPut(m, k);
        PutEntry(pm, pt, k, 0);
        k := k + 1;
      }
      PutEntry(pm, pd, i, Made(pt, NEWTABLE));
      PutEntry(pm, pt, j, v);
    } else {
      PutEntry(pm, Frame(e), j, v);
    }
  }

  function DirIndex(virt: Word): nat {
    virt / 0x40_0000
  }

  function TableIndex(virt: Word): nat {
    virt / 0x1000 % 0x400
  }

  /** The two indices and the offset in the page make up the address. */
  lemma AddressParts(virt: Word)
    ensures DirIndex(virt) < WORDS && TableIndex(virt) < WORDS
    ensures virt == DirIndex(virt) * 0x40_0000 + TableIndex(virt) * 0x1000 + virt % 0x1000
  {
  }

  /** vmm_map_page_ex on addresses; flags are below the frame number. */
  method MapAddress(pm: Memory, pd: nat, virt: Word, phys: Word, flags: Word)
    requires pm.Valid() && 0 in pm.St().used && pd in pm.St().used && flags < 4096
    requires if Present(Entry(pm.St(), pd, DirIndex(virt))) then Frame(Entry(pm.St(), pd, DirIndex(virt))) < pm.pages else |pm.St().used| < pm.pages
    modifies pm, pm.bitmap, pm.mem
    ensures DirIndex(virt) < WORDS && TableIndex(virt) < WORDS && pd < pm.pages
    ensures Present(old(Entry(pm.St(), pd, DirIndex(virt)))) || Lowest(old(pm.St()).used, pm.pages, 0) < pm.pages
    ensures exists v: Word :: Frame(v) == phys / 4096 && Flags(v) == flags && pm.St() == Map(old(pm.St()), pd, DirIndex(virt), TableIndex(virt), v)
  {
    hide UsedIn, Put, Alloc, Lowest, Made, Entry, Map;
    AddressParts(virt);
    var v := phys / 4096 * 4096 + flags;
    EntryParts(phys, flags);
    MapPage(pm, pd, DirIndex(virt), TableIndex(virt), v);
  }

  lemma EntryParts(phys: Word, flags: Word)
    requires flags < 4096
    ensures phys / 4096 * 4096 + flags < 0x1_0000_0000
    ensures (phys / 4096 * 4096 + flags) / 4096 == phys / 4096
    ensures (phys / 4096 * 4096 + flags) % 4096 == flags
  {
  }

  /** A page just allocated is all zeros, so clearing it again changes nothing. */
  lemma ZeroPut(m: Mem, k: nat)
    requires MemOk(m) && Lowest(m.used, m.size, 0) < m.size && k < WORDS
    ensures Put(Alloc(m), Lowest(m.used, m.size, 0), k, 0) == Alloc(m)
  {
    var p := Lowest(m.used, m.size, 0);
    AllocAt(m, p);
    var a := Alloc(m);
    assert PageAt(a, p)[k := 0] == PageAt(a, p);
    assert Put(a, p, k, 0).words == a.words;
  }

  /** Entries after mapping: one in the directory if a table was added, one in the table. */
  lemma MapEntries(m: Mem, pd: nat, i: nat, j: nat, v: Word, p: nat, k: nat)
    requires MemOk(m) && pd in m.used && i < WORDS && j < WORDS && p in m.used && k < WORDS && |m.used| < m.size
    requires Present(Entry(m, pd, i)) ==> Frame(Entry(m, pd, i)) in m.used && Frame(Entry(m, pd, i)) != pd
    ensures Lowest(m.used, m.size, 0) < m.size && pd < m.size
    ensures Present(Entry(m, pd, i)) ==> Frame(Entry(m, pd, i)) < m.size
    ensures Present(Entry(m, pd, i)) ==>
      Entry(Map(m, pd, i, j, v), p, k) == if p == Frame(Entry(m, pd, i)) && k == j then v else Entry(m, p, k)
    ensures !Present(Entry(m, pd, i)) ==>
      Entry(Map(m, pd, i, j, v), p, k) == if p == pd && k == i then Made(Lowest(m.used, m.size, 0), NEWTABLE) else Entry(m, p, k)
    ensures !Present(Entry(m, pd, i)) ==>
      Entry(Map(m, pd, i, j, v), Lowest(m.used, m.size, 0), k) == if k == j then v else 0
  {
    hide PageAt, Alloc, Put, Entry, Lowest, Made, Frame;
    Room(m);
    var f := Lowest(m.used, m.size, 0);
    if Present(Entry(m, pd, i)) {
      EntryPut(m, Frame(Entry(m, pd, i)), j, v, p, k);
    } else {
      var a := Alloc(m);
      var b := Put(a, pd, i, Made(f, NEWTABLE));
      AllocAt(m, p);
      EntrySame(m, a, p, k);
      AllocAt(m, f);
      EntryOfPage(a, f, k);
      EntryPut(a, pd, i, Made(f, NEWTABLE), p, k);
      EntryPut(b, f, j, v, p, k);
      EntryPut(a, pd, i, Made(f, NEWTABLE), f, k);
      EntryPut(b, f, j, v, f, k);
    }
  }

  /** A page that is neither the directory nor the table written to keeps its words. */
  lemma MapData(m: Mem, pd: nat, i: nat, j: nat, v: Word, p: nat)
    requires MemOk(m) && pd in m.used && i < WORDS && j < WORDS && p in m.used && p != pd && |m.used| < m.size
    requires Present(Entry(m, pd, i)) ==> Frame(Entry(m, pd, i)) in m.used && Frame(Entry(m, pd, i)) != p
    ensures pd < m.size && p < m.size && Lowest(m.used, m.size, 0) < m.size && (Present(Entry(m, pd, i)) ==> Frame(Entry(m, pd, i)) < m.size)
    ensures MemOk(Map(m, pd, i, j, v)) && Map(m, pd, i, j, v).size == m.size
    ensures PageAt(Map(m, pd, i, j, v), p) == PageAt(m, p)
  {
    hide PageAt, Alloc, Entry, Lowest, Made, Frame, SetPage;
    Room(m);
    var f := Lowest(m.used, m.size, 0);
    if Present(Entry(m, pd, i)) {
      SetPageAt(m, Frame(Entry(m, pd, i)), PageAt(m, Frame(Entry(m, pd, i)))[j := v], p);
    } else {
      var a := Alloc(m);
      var b := Put(a, pd, i, Made(f, NEWTABLE));
      AllocAt(m, p);
      SetPageAt(a, pd, PageAt(a, pd)[i := Made(f, NEWTABLE)], p);
      SetPageAt(b, f, PageAt(b, f)[j := v], p);
    }
  }

  /** v maps a page in use that is neither the directory nor one of its tables. */
  ghost predicate Fit(m: Mem, pd: nat, v: Word) {
    Present(v) && Frame(v) in m.used && Frame(v) != pd && forall k: nat | FIRST <= k < WORDS :: TableApart(m, pd, k, Frame(v))
  }

  /** After mapping: the address finds the page with its flags, every other user address what it found before. */
  lemma MapViews(m: Mem, pd: nat, i: nat, j: nat, v: Word, a: nat, b: nat)
    requires MemOk(m) && SpaceOk(m, pd) && TreeOk(m, pd) && Fit(m, pd, v) && |m.used| < m.size
    requires FIRST <= i < WORDS && j < WORDS && FIRST <= a < WORDS && b < WORDS
    ensures Frame(v) < m.size && pd < m.size && Lowest(m.used, m.size, 0) < m.size && (Present(Entry(m, pd, i)) ==> Frame(Entry(m, pd, i)) < m.size)
    ensures MemOk(Map(m, pd, i, j, v))
    ensures ViewOf(Map(m, pd, i, j, v), pd, a, b) ==
      if a == i && b == j then Mapped(if Present(Entry(m, pd, i)) then Flags(Entry(m, pd, i)) else NEWTABLE, Flags(v), PageAt(m, Frame(v)))
      else ViewOf(m, pd, a, b)
  {
    hide PageAt, Alloc, Put, Entry, Lowest, Made, Frame, SpaceOk, Map, TreeOk, TableOk, Flags, Present;
    PdUsed(m, pd);
    var e := Entry(m, pd, i);
    if Present(e) {
      SpaceOkEntry(m, pd, i);
      TreeTable(m, pd, i, i);
    }
    MapData(m, pd, i, j, v, Frame(v)) by { FitApart(m, pd, v, i); }
    var r := Map(m, pd, i, j, v);
    MapEntries(m, pd, i, j, v, pd, a);
    var d := Entry(m, pd, a);
    var f := Lowest(m.used, m.size, 0);
    if !Present(e) {
      MapEntries(m, pd, i, j, v, pd, b);
      NewFlags();
    }
    if Present(d) {
      SpaceOkEntry(m, pd, a);
      TreeTable(m, pd, a, i);
      MapEntries(m, pd, i, j, v, Frame(d), b);
      var t := Entry(m, Frame(d), b);
      if Present(t) {
        TableOkEntry(m, Frame(d), b);
        TreeFrame(m, pd, i, a, b);
        MapData(m, pd, i, j, v, Frame(t));
      }
    }
  }

  lemma FitApart(m: Mem, pd: nat, v: Word, i: nat)
    requires Fit(m, pd, v) && FIRST <= i < WORDS
    ensures Present(Entry(m, pd, i)) ==> Frame(Entry(m, pd, i)) != Frame(v)
  {
    assert TableApart(m, pd, i, Frame(v));
  }

  lemma TreeTable(m: Mem, pd: nat, a: nat, i: nat)
    requires TreeOk(m, pd) && FIRST <= a < WORDS && FIRST <= i < WORDS && Present(Entry(m, pd, a))
    ensures Frame(Entry(m, pd, a)) != pd
    ensures a != i && Present(Entry(m, pd, i)) ==> Frame(Entry(m, pd, i)) != Frame(Entry(m, pd, a))
  {
    assert TableApart(m, pd, a, pd);
    assert a != i ==> TableApart(m, pd, i, Frame(Entry(m, pd, a)));
  }

  lemma TreeFrame(m: Mem, pd: nat, i: nat, a: nat, b: nat)
    requires TreeOk(m, pd) && FIRST <= a < WORDS && FIRST <= i < WORDS && b < WORDS
    requires Present(Entry(m, pd, a)) && Present(Entry(m, Frame(Entry(m, pd, a)), b))
    ensures Frame(Entry(m, Frame(Entry(m, pd, a)), b)) != pd
    ensures Present(Entry(m, pd, i)) ==> Frame(Entry(m, pd, i)) != Frame(Entry(m, Frame(Entry(m, pd, a)), b))
  {
    assert FrameIs(m, pd, a, b, Frame(Entry(m, Frame(Entry(m, pd, a)), b)));
    assert PageApart(m, pd, i, Frame(Entry(m, Frame(Entry(m, pd, a)), b)));
  }

  lemma NewFlags()
    ensures Present(NEWTABLE) && Flags(NEWTABLE) == NEWTABLE && !Present(0)
  {
  }

  /** What the preconditions of mapping provide, in one place. */
  ghost predicate CanMap(m: Mem, pd: nat, i: nat, j: nat, v: Word) {
    MemOk(m) && SpaceOk(m, pd) && TreeOk(m, pd) && Fit(m, pd, v) && |m.used| < m.size && FIRST <= i < WORDS && j < WORDS
  }

  lemma CanMapParts(m: Mem, pd: nat, i: nat, j: nat, v: Word)
    requires CanMap(m, pd, i, j, v)
    ensures MemOk(m) && pd in m.used && pd < m.size && Lowest(m.used, m.size, 0) < m.size && Frame(v) in m.used && Present(v) && i < WORDS && j < WORDS
    ensures Present(Entry(m, pd, i)) ==> Frame(Entry(m, pd, i)) in m.used && Frame(Entry(m, pd, i)) < m.size && Frame(Entry(m, pd, i)) != pd
  {
    hide Entry, Frame, Lowest, TableApart, FrameIs;
    Room(m);
    if Present(Entry(m, pd, i)) {
      SpaceOkEntry(m, pd, i);
      TreeTable(m, pd, i, i);
    }
  }

  lemma MapDirEntry(m: Mem, pd: nat, i: nat, j: nat, v: Word, a: nat)
    requires CanMap(m, pd, i, j, v) && FIRST <= a < WORDS
    ensures pd < m.size && Lowest(m.used, m.size, 0) < m.size && (Present(Entry(m, pd, i)) ==> Frame(Entry(m, pd, i)) < m.size)
    ensures Entry(Map(m, pd, i, j, v), pd, a) == if !Present(Entry(m, pd, i)) && a == i then Made(Lowest(m.used, m.size, 0), NEWTABLE) else Entry(m, pd, a)
    ensures !Present(Entry(m, pd, i)) ==> Present(Made(Lowest(m.used, m.size, 0), NEWTABLE))
  {
    hide Entry, Frame, Lowest, Map, TreeOk, SpaceOk, Made, Fit;
    CanMapParts(m, pd, i, j, v);
    MapEntries(m, pd, i, j, v, pd, a);
    NewFlags();
  }

  /** A page mapped afterwards was mapped before, or is the new one. */
  lemma MapFrameIs(m: Mem, pd: nat, i: nat, j: nat, v: Word, k: nat, b: nat, p: nat)
    requires CanMap(m, pd, i, j, v) && FIRST <= k < WORDS && b < WORDS
    requires pd < m.size && Lowest(m.used, m.size, 0) < m.size && (Present(Entry(m, pd, i)) ==> Frame(Entry(m, pd, i)) < m.size)
    requires FrameIs(Map(m, pd, i, j, v), pd, k, b, p)
    ensures FrameIs(m, pd, k, b, p) || (k == i && b == j && p == Frame(v))
  {
    hide Entry, Frame, Lowest, Map, TreeOk, SpaceOk, Made, Fit, TableOk;
    CanMapParts(m, pd, i, j, v);
    MapDirEntry(m, pd, i, j, v, k);
    NewFlags();
    if !Present(Entry(m, pd, i)) && k == i {
      MapEntries(m, pd, i, j, v, pd, b);
    } else {
      SpaceOkEntry(m, pd, k) by { Unpack(m, pd, i, j, v); }
      MapEntries(m, pd, i, j, v, Frame(Entry(m, pd, k)), b);
      DirApart(m, pd, i, j, v, k);
    }
  }

  lemma Unpack(m: Mem, pd: nat, i: nat, j: nat, v: Word)
    requires CanMap(m, pd, i, j, v)
    ensures SpaceOk(m, pd) && TreeOk(m, pd) && Fit(m, pd, v) && |m.used| < m.size && FIRST <= i
  {
  }

  lemma DirApart(m: Mem, pd: nat, i: nat, j: nat, v: Word, k: nat)
    requires CanMap(m, pd, i, j, v) && FIRST <= k < WORDS && Present(Entry(m, pd, k))
    ensures Frame(Entry(m, pd, k)) != pd
    ensures k != i && Present(Entry(m, pd, i)) ==> Frame(Entry(m, pd, k)) != Frame(Entry(m, pd, i))
  {
    hide Entry, Frame, TableApart, FrameIs, SpaceOk, Fit;
    TreeTable(m, pd, k, i);
  }

  lemma FrameUsed(m: Mem, pd: nat, k: nat, b: nat, p: nat)
    requires SpaceOk(m, pd) && FIRST <= k < WORDS && b < WORDS && FrameIs(m, pd, k, b, p)
    ensures p in m.used
  {
    hide Entry, Frame, TableOk;
    SpaceOkEntry(m, pd, k);
    TableOkEntry(m, Frame(Entry(m, pd, k)), b);
  }

  /** Mapping keeps the directory, its tables and the mapped pages apart. */
  lemma MapKeepsTree(m: Mem, pd: nat, i: nat, j: nat, v: Word)
    requires CanMap(m, pd, i, j, v)
    ensures pd < m.size && Lowest(m.used, m.size, 0) < m.size && (Present(Entry(m, pd, i)) ==> Frame(Entry(m, pd, i)) < m.size)
    ensures TreeOk(Map(m, pd, i, j, v), pd)
  {
    hide Entry, Frame, Lowest, Map, SpaceOk, Made, Fit, TableOk, CanMap, TreeOk, FrameIs;
    CanMapParts(m, pd, i, j, v);
    Unpack(m, pd, i, j, v);
    var r, f := Map(m, pd, i, j, v), Lowest(m.used, m.size, 0);
    forall a: nat | FIRST <= a < WORDS ensures TableApart(r, pd, a, pd) {
      MapDirEntry(m, pd, i, j, v, a);
      if Present(Entry(m, pd, a)) {
        DirApart(m, pd, i, j, v, a);
      }
    }
    forall a: nat, k: nat | FIRST <= a < WORDS && FIRST <= k < WORDS && a != k && Present(Entry(r, pd, k))
      ensures TableApart(r, pd, a, Frame(Entry(r, pd, k)))
    {
      MapDirEntry(m, pd, i, j, v, a);
      MapDirEntry(m, pd, i, j, v, k);
      if Present(Entry(m, pd, k)) {
        SpaceOkEntry(m, pd, k);
        TreeTable(m, pd, k, a);
      }
      if Present(Entry(m, pd, a)) {
        SpaceOkEntry(m, pd, a);
      }
    }
    forall a: nat, k: nat, b: nat, p: nat | FIRST <= a < WORDS && FIRST <= k < WORDS && b < WORDS && FrameIs(r, pd, k, b, p)
      ensures PageApart(r, pd, a, p)
    {
      MapFrameIs(m, pd, i, j, v, k, b, p);
      MapDirEntry(m, pd, i, j, v, a);
      if FrameIs(m, pd, k, b, p) {
        FrameUsed(m, pd, k, b, p);
        TreeApart(m, pd, k, b, p, a);
      } else {
        FitAt(m, pd, v, a);
      }
    }
    TreeIs(r, pd);
  }

  lemma MapUsed(m: Mem, pd: nat, i: nat, j: nat, v: Word)
    requires CanMap(m, pd, i, j, v)
    ensures pd < m.size && Lowest(m.used, m.size, 0) < m.size && (Present(Entry(m, pd, i)) ==> Frame(Entry(m, pd, i)) < m.size)
    ensures Map(m, pd, i, j, v).used == if Present(Entry(m, pd, i)) then m.used else m.used + {Lowest(m.used, m.size, 0)}
  {
    hide Entry, Frame, Lowest, SetPage, PageAt, TreeOk, SpaceOk, Fit;
    CanMapParts(m, pd, i, j, v);
    AllocUsed(m);
  }

  /** ... and every table and page it refers to in use. */
  lemma MapKeepsSpace(m: Mem, pd: nat, i: nat, j: nat, v: Word)
    requires CanMap(m, pd, i, j, v)
    ensures pd < m.size && Lowest(m.used, m.size, 0) < m.size && (Present(Entry(m, pd, i)) ==> Frame(Entry(m, pd, i)) < m.size)
    ensures SpaceOk(Map(m, pd, i, j, v), pd)
  {
    hide Entry, Frame, Lowest, Map, Made, Fit, CanMap, TreeOk, SpaceOk, TableOk;
    MapUsed(m, pd, i, j, v);
    CanMapParts(m, pd, i, j, v);
    Unpack(m, pd, i, j, v);
    var r, f := Map(m, pd, i, j, v), Lowest(m.used, m.size, 0);
    forall a: nat | FIRST <= a < WORDS && Present(Entry(r, pd, a)) ensures TableOk(r, Frame(Entry(r, pd, a))) {
      MapDirEntry(m, pd, i, j, v, a);
      var pt := Frame(Entry(r, pd, a));
      if Present(Entry(m, pd, a)) {
        SpaceOkEntry(m, pd, a);
        TreeTable(m, pd, a, i);
      }
      forall b: nat | b < WORDS && Present(Entry(r, pt, b)) ensures Frame(Entry(r, pt, b)) in r.used {
        if Present(Entry(m, pd, a)) {
          MapEntries(m, pd, i, j, v, pt, b);
          if Present(Entry(m, pt, b)) {
            TableOkEntry(m, pt, b);
          }
        } else {
          MapEntries(m, pd, i, j, v, pd, b);
          NewFlags();
        }
      }
      TableIs(r, pt);
    }
    SpaceIs(r, pd);
  }

  lemma TableIs(m: Mem, pt: nat)
    requires pt in m.used && forall j: nat | j < WORDS && Present(Entry(m, pt, j)) :: Frame(Entry(m, pt, j)) in m.used
    ensures TableOk(m, pt)
  {
  }

  lemma SpaceIs(m: Mem, pd: nat)
    requires pd in m.used && forall i: nat | FIRST <= i < WORDS && Present(Entry(m, pd, i)) :: TableOk(m, Frame(Entry(m, pd, i)))
    ensures SpaceOk(m, pd)
  {
  }

  lemma FitAt(m: Mem, pd: nat, v: Word, a: nat)
    requires Fit(m, pd, v) && FIRST <= a < WORDS
    ensures Frame(v) != pd && TableApart(m, pd, a, Frame(v)) && Frame(v) in m.used
  {
  }

  lemma TreeApart(m: Mem, pd: nat, k: nat, b: nat, p: nat, a: nat)
    requires TreeOk(m, pd) && FIRST <= k < WORDS && b < WORDS && FrameIs(m, pd, k, b, p) && FIRST <= a < WORDS
    ensures PageApart(m, pd, a, p)
  {
  }

  lemma TreeIs(m: Mem, pd: nat)
    requires forall i: nat | FIRST <= i < WORDS :: TableApart(m, pd, i, pd)
    requires forall i: nat, k: nat | FIRST <= i < WORDS && FIRST <= k < WORDS && i != k && Present(Entry(m, pd, k)) :: TableApart(m, pd, i, Frame(Entry(m, pd, k)))
    requires forall i: nat, k: nat, j: nat, p: nat | FIRST <= i < WORDS && FIRST <= k < WORDS && j < WORDS && FrameIs(m, pd, k, j, p) :: PageApart(m, pd, i, p)
    ensures TreeOk(m, pd)
  {
  }

  // ----- a clone is laid out apart -----

  lemma NoDupParts(a: seq<nat>, b: seq<nat>)
    requires NoDup(a + b)
    ensures NoDup(a) && NoDup(b) && forall x | x in a :: x !in b
  {
    forall i, j | 0 <= i < |a| && 0 <= j < |b| ensures a[i] != b[j] {
      assert (a + b)[i] == a[i] && (a + b)[|a| + j] == b[j];
    }
    forall i, j | 0 <= i < j < |a| ensures a[i] != a[j] {
      assert (a + b)[i] == a[i] && (a + b)[j] == a[j];
    }
    forall i, j | 0 <= i < j < |b| ensures b[i] != b[j] {
      assert (a + b)[|a| + i] == b[i] && (a + b)[|a| + j] == b[j];
    }
  }

  /** In a list without repetition the tables differ from each other and from every frame. */
  lemma {:induction false} DirDistinct(m: Mem, pd: nat, n: nat, a: nat, k: nat)
    requires NoDup(DirPages(m, pd, n)) && n <= WORDS && FIRST <= a < n && FIRST <= k < n && Present(Entry(m, pd, a)) && Present(Entry(m, pd, k))
    ensures a != k ==> Frame(Entry(m, pd, a)) != Frame(Entry(m, pd, k))
    ensures forall p | p in TablePages(m, Frame(Entry(m, pd, k)), WORDS) :: p != Frame(Entry(m, pd, a))
  {
    hide Entry, Frame, TablePages, NoDup, DirPages;
    DirUnfold(m, pd, n - 1);
    var e := Entry(m, pd, n - 1);
    var ds := DirPages(m, pd, n - 1);
    if Present(e) {
      NoDupParts(ds, TablePages(m, Frame(e), WORDS) + [Frame(e)]);
      NoDupParts(TablePages(m, Frame(e), WORDS), [Frame(e)]);
      assert Frame(e) in [Frame(e)];
    } else {
      assert ds + [] == ds;
    }
    if a < n - 1 && k < n - 1 {
      DirDistinct(m, pd, n - 1, a, k);
    } else if a < n - 1 {
      InDir(m, pd, n - 1, a);
    } else if k < n - 1 {
      InDir(m, pd, n - 1, k);
    }
  }

  /** The clone's directory, tables and frames are all different pages. */
  lemma CloneTree(m0: Mem, pd: nat, m: Mem, npd: nat)
    requires Cloned(m0, pd, m, npd)
    ensures TreeOk(m, npd)
  {
    hide Entry, Frame, TablePages, NoDup, DirPages, DirCopied, TreeOk, Same, FrameIs;
    NoDupParts(DirPages(m, npd, WORDS), [npd]);
    assert npd in [npd];
    forall i: nat | FIRST <= i < WORDS ensures TableApart(m, npd, i, npd) {
      if Present(Entry(m, npd, i)) {
        InDir(m, npd, WORDS, i);
      }
    }
    forall i: nat, k: nat | FIRST <= i < WORDS && FIRST <= k < WORDS && i != k && Present(Entry(m, npd, k))
      ensures TableApart(m, npd, i, Frame(Entry(m, npd, k)))
    {
      if Present(Entry(m, npd, i)) {
        DirDistinct(m, npd, WORDS, i, k);
      }
    }
    forall i: nat, k: nat, j: nat, p: nat | FIRST <= i < WORDS && FIRST <= k < WORDS && j < WORDS && FrameIs(m, npd, k, j, p)
      ensures PageApart(m, npd, i, p)
    {
      FrameListed(m, npd, k, j, p);
      InDir(m, npd, WORDS, k);
      if Present(Entry(m, npd, i)) {
        DirDistinct(m, npd, WORDS, i, k);
      }
    }
    TreeIs(m, npd);
  }

  lemma FrameListed(m: Mem, pd: nat, k: nat, j: nat, p: nat)
    requires FrameIs(m, pd, k, j, p) && j < WORDS
    ensures Present(Entry(m, pd, k)) && p in TablePages(m, Frame(Entry(m, pd, k)), WORDS)
  {
    hide Entry, Frame, TablePages;
    InTable(m, Frame(Entry(m, pd, k)), WORDS, j);
  }

  /** A new directory maps nothing. */
  lemma EmptySpace(m: Mem, pd: nat)
    requires pd in m.used && forall i: nat | FIRST <= i < WORDS :: Entry(m, pd, i) == 2
    ensures SpaceOk(m, pd) && TreeOk(m, pd) && DirPages(m, pd, WORDS) == []
  {
    hide TableOk, TablePages, Entry;
    NoPages(m, pd, WORDS);
  }

  lemma {:induction false} NoPages(m: Mem, pd: nat, n: nat)
    requires n <= WORDS && forall i: nat | FIRST <= i < WORDS :: Entry(m, pd, i) == 2
    ensures DirPages(m, pd, n) == []
  {
    hide TablePages, Entry;
    if n > FIRST {
      NoPages(m, pd, n - 1);
    }
  }
}
