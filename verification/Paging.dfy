/**
 Creating, cloning and reaping address spaces, page by page as the kernel does it, and what a clone
 guarantees: equal views, separate pages, and full return of memory.
 */
module Paging {
  import opened Bytes
  import opened Pages
  import opened Spaces

  // ----- what a clone means -----

  lemma TableOkEntry(m: Mem, pt: nat, j: nat)
    requires TableOk(m, pt) && j < WORDS && Present(Entry(m, pt, j))
    ensures Frame(Entry(m, pt, j)) in m.used
  {
  }

  lemma SpaceOkEntry(m: Mem, pd: nat, i: nat)
    requires SpaceOk(m, pd) && FIRST <= i < WORDS && Present(Entry(m, pd, i))
    ensures TableOk(m, Frame(Entry(m, pd, i))) && Frame(Entry(m, pd, i)) in m.used
  {
  }

  /** What a user address finds depends only on the directory, the table and the frame. */
  lemma ViewSame(m: Mem, r: Mem, pd: nat, i: nat, j: nat)
    requires MemOk(m) && MemOk(r) && r.size == m.size && SpaceOk(m, pd) && FIRST <= i < WORDS && j < WORDS
    requires PageAt(r, pd) == PageAt(m, pd)
    requires forall p | p in m.used && p < m.size && InSpace(m, pd, p) :: PageAt(r, p) == PageAt(m, p)
    ensures ViewOf(r, pd, i, j) == ViewOf(m, pd, i, j)
  {
    hide PageAt, Entry, Frame, SpaceOk, TableOk, InSpace, Present;
    EntrySame(m, r, pd, i);
    var d := Entry(m, pd, i);
    if Present(d) {
      SpaceOkEntry(m, pd, i);
      TableInSpace(m, pd, i, j);
      EntrySame(m, r, Frame(d), j);
      var t := Entry(m, Frame(d), j);
      if Present(t) {
        TableOkEntry(m, Frame(d), j);
      }
    }
  }

  /** A table or frame behind some user entry of the directory. */
  predicate InSpace(m: Mem, pd: nat, p: nat) {
    p in DirPages(m, pd, WORDS)
  }

  lemma TableInSpace(m: Mem, pd: nat, i: nat, j: nat)
    requires FIRST <= i < WORDS && j < WORDS && Present(Entry(m, pd, i))
    ensures InSpace(m, pd, Frame(Entry(m, pd, i)))
    ensures Present(Entry(m, Frame(Entry(m, pd, i)), j)) ==> InSpace(m, pd, Frame(Entry(m, Frame(Entry(m, pd, i)), j)))
  {
    hide Entry, Frame;
    InDir(m, pd, WORDS, i);
    var pt := Frame(Entry(m, pd, i));
    if Present(Entry(m, pt, j)) {
      InTable(m, pt, WORDS, j);
    }
  }

  /** Everything a clone promises: pages taken, kernel entries shared, user entries copied. */
  ghost predicate Cloned(m0: Mem, pd: nat, m: Mem, npd: nat) {
    && MemOk(m0) && MemOk(m)
    && Grows(m0, m, DirPages(m, npd, WORDS) + [npd])
    && DirCopied(m0, pd, m, npd, WORDS)
  }

  /** Every user page of the clone has the flags and bytes of the source, which has not changed. */
  lemma CloneViews(m0: Mem, pd: nat, m: Mem, npd: nat, i: nat, j: nat)
    requires Cloned(m0, pd, m, npd) && SpaceOk(m0, pd) && i < WORDS && j < WORDS
    ensures i < FIRST ==> Entry(m, npd, i) == Entry(m0, pd, i)
    ensures i >= FIRST ==> ViewOf(m, npd, i, j) == ViewOf(m0, pd, i, j) == ViewOf(m, pd, i, j)
  {
    hide PageAt, Entry, SpaceOk, TablePages, DirPages, TableOk, Frame, Flags;
    if i >= FIRST {
      var e := Entry(m0, pd, i);
      assert TableRef(m0, e, m, Entry(m, npd, i));
      if Present(e) {
        assert EntryCopied(m0, Entry(m0, Frame(e), j), m, Entry(m, Frame(Entry(m, npd, i)), j));
      }
      PdUsed(m0, pd);
      ViewSame(m0, m, pd, i, j);
    }
  }

  lemma PdUsed(m: Mem, pd: nat)
    requires MemOk(m) && SpaceOk(m, pd)
    ensures pd in m.used && pd < m.size
  {
  }

  lemma {:induction false} TableUsed(m: Mem, pt: nat, n: nat)
    requires TableOk(m, pt) && n <= WORDS
    ensures forall p | p in TablePages(m, pt, n) :: p in m.used
  {
    hide Entry, Frame;
    if n > 0 {
      TableUsed(m, pt, n - 1);
    }
  }

  lemma {:induction false} DirUsed(m: Mem, pd: nat, n: nat)
    requires SpaceOk(m, pd) && n <= WORDS
    ensures forall p | p in DirPages(m, pd, n) :: p in m.used
  {
    hide Entry, Frame, TablePages, TableOk;
    if n > FIRST {
      DirUsed(m, pd, n - 1);
      if Present(Entry(m, pd, n - 1)) {
        SpaceOkEntry(m, pd, n - 1);
        TableUsed(m, Frame(Entry(m, pd, n - 1)), WORDS);
      }
    }
  }

  /** A write to any page of the clone is invisible in the source ... */
  lemma CloneWriteInvisible(m0: Mem, pd: nat, m: Mem, npd: nat, p: nat, d: seq<Word>, i: nat, j: nat)
    requires Cloned(m0, pd, m, npd) && SpaceOk(m0, pd) && FIRST <= i < WORDS && j < WORDS && |d| == WORDS
    requires p == npd || InSpace(m, npd, p)
    ensures p < m.size && ViewOf(SetPage(m, p, d), pd, i, j) == ViewOf(m, pd, i, j)
  {
    hide PageAt, Entry, SpaceOk, TablePages, DirPages, SetPage, ViewOf;
    assert p in DirPages(m, npd, WORDS) + [npd];
    CloneViews(m0, pd, m, npd, i, j);
    var r := SetPage(m, p, d);
    PdUsed(m0, pd);
    forall q | q in m0.used ensures PageAt(r, q) == PageAt(m0, q) {
      SetPageAt(m, p, d, q);
    }
    ViewSame(m0, r, pd, i, j);
  }

  lemma CloneSpaceOk(m0: Mem, pd: nat, m: Mem, npd: nat)
    requires Cloned(m0, pd, m, npd)
    ensures SpaceOk(m, npd)
  {
    hide PageAt, Entry, TablePages, DirPages, Frame, DirCopied, Same, NoDup;
    forall i: nat | FIRST <= i < WORDS && Present(Entry(m, npd, i)) ensures TableOk(m, Frame(Entry(m, npd, i))) {
      var pt := Frame(Entry(m, npd, i));
      InDir(m, npd, WORDS, i);
      forall j: nat | j < WORDS && Present(Entry(m, pt, j)) ensures Frame(Entry(m, pt, j)) in m.used {
        InTable(m, pt, WORDS, j);
      }
    }
  }

  /** ... and a write to any page that was in use before is invisible in the clone. */
  lemma SourceWriteInvisible(m0: Mem, pd: nat, m: Mem, npd: nat, p: nat, d: seq<Word>, i: nat, j: nat)
    requires Cloned(m0, pd, m, npd) && FIRST <= i < WORDS && j < WORDS && |d| == WORDS && p in m0.used
    ensures ViewOf(SetPage(m, p, d), npd, i, j) == ViewOf(m, npd, i, j)
  {
    hide PageAt, Entry, SpaceOk, TablePages, DirPages, SetPage, ViewOf, DirCopied, NoDup;
    var r := SetPage(m, p, d);
    CloneSpaceOk(m0, pd, m, npd);
    PdUsed(m, npd);
    assert npd in DirPages(m, npd, WORDS) + [npd];
    forall q | q in m.used && q !in m0.used ensures PageAt(r, q) == PageAt(m, q) {
      SetPageAt(m, p, d, q);
    }
    forall q | q in m.used && q < m.size && InSpace(m, npd, q) ensures q !in m0.used {
      assert q in DirPages(m, npd, WORDS) + [npd];
    }
    ViewSame(m, r, npd, i, j);
  }

  // ----- reaping -----

  function FreeAll(m: Mem, ps: seq<nat>): (r: Mem)
    requires MemOk(m)
    ensures MemOk(r) && r.size == m.size && r.words == m.words
  {
    if ps == [] then m else Free(FreeAll(m, ps[..|ps| - 1]), ps[|ps| - 1] * 4096)
  }

  lemma FreeAllNext(m: Mem, ps: seq<nat>, p: nat)
    requires MemOk(m)
    ensures FreeAll(m, ps + [p]) == Free(FreeAll(m, ps), p * 4096)
  {
    assert (ps + [p])[..|ps|] == ps;
  }

  lemma FreeOne(m: Mem, p: nat)
    requires MemOk(m) && p < m.size && m.count >= 4096
    ensures Free(m, p * 4096).used == m.used - {p} && Free(m, p * 4096).count == m.count - 4096
  {
  }

  /** Freeing distinct pages in use: exactly they leave the bitmap, and the counter follows. */
  lemma {:induction false} FreeAllUsed(m: Mem, ps: seq<nat>)
    requires MemOk(m) && NoDup(ps) && (forall p | p in ps :: p in m.used) && m.count as nat >= 4096 * |ps|
    ensures FreeAll(m, ps).count as nat == m.count as nat - 4096 * |ps|
    ensures forall q :: q in FreeAll(m, ps).used <==> q in m.used && q !in ps
  {
    hide PageAt;
    if ps != [] {
      var k := |ps| - 1;
      FreeAllUsed(m, ps[..k]);
      assert ps == ps[..k] + [ps[k]];
      assert ps[k] in ps && ps[k] in m.used;
      FreeOne(FreeAll(m, ps[..k]), ps[k]);
    }
  }

  /** Freeing exactly the pages memory grew by restores bitmap and counter. */
  lemma FreeGrown(m0: Mem, m: Mem, ps: seq<nat>)
    requires Grows(m0, m, ps)
    ensures FreeAll(m, ps).used == m0.used && FreeAll(m, ps).count == m0.count
    ensures Same(m0, FreeAll(m, ps))
  {
    hide PageAt;
    FreeAllUsed(m, ps);
    forall p | p in m0.used ensures PageAt(FreeAll(m, ps), p) == PageAt(m0, p) {
      PageAtWords(m, FreeAll(m, ps), p);
    }
  }

  /** The pages the reaper frees, in its order. */
  function Reaped(m: Mem, pd: nat): (r: Mem)
    requires MemOk(m)
  {
    FreeAll(m, DirPages(m, pd, WORDS) + [pd])
  }

  /** Reaping a clone that was not changed gives back exactly what cloning took. */
  lemma ReapClone(m0: Mem, pd: nat, m: Mem, npd: nat)
    requires Cloned(m0, pd, m, npd)
    ensures Reaped(m, npd).used == m0.used && Reaped(m, npd).count == m0.count && Same(m0, Reaped(m, npd))
  {
    hide PageAt, DirPages, DirCopied;
    FreeGrown(m0, m, DirPages(m, npd, WORDS) + [npd]);
  }
}
