/**
 kmalloc and kfree: their effect on the list of blocks and the page bitmap, what every run of them
 keeps, and the class whose methods walk and rewrite the headers that lie in the managed memory.
 */
module Heap {
  import opened Pages
  import opened HeapList

  /** The block list, the pages it has claimed, and the page bitmap of n pages. */
  datatype HeapSt = HeapSt(blocks: seq<Blk>, pages: set<nat>, used: set<nat>, n: nat)

  ghost predicate HeapInv(h: HeapSt) {
    && HeapOk(h.blocks, h.pages)
    && h.pages <= h.used && 0 in h.used && 0 !in h.pages && h.n <= MAXPAGES
    && forall p | p in h.used :: p < h.n
  }

  // ----- sizes, as 32-bit arithmetic -----

  /** (size + 3) & ~3 on 32 bits. */
  function Round(size: Word): (r: Word)
    ensures r % 4 == 0
    ensures size <= 0xFFFFFFFC ==> size <= r <= size + 3
  {
    (size as nat + 3) % 0x1_0000_0000 / 4 * 4
  }

  function PagesNeeded(size: Word): nat {
    PagesFor((Round(size) as nat + 12) % 0x1_0000_0000)
  }

  function PagesFor(total: nat): nat {
    (total + 4095) % 0x1_0000_0000 / 4096
  }

  lemma PagesForIff(total: nat)
    requires total < 0x1_0000_0000
    ensures total + 4095 < 0x1_0000_0000 ==> total <= PagesFor(total) * 4096 < total + 4096
    ensures total + 4095 >= 0x1_0000_0000 ==> PagesFor(total) == 0
    ensures total <= 8 ==> PagesFor(total) <= 1
  {
  }

  predicate InRange(size: Word) {
    Round(size) as nat + 12 + 4095 < 0x1_0000_0000
  }

  /** The pages computed hold the block exactly for the sizes where no addition wraps around. */
  lemma PagesEnoughIff(size: Word)
    ensures PagesNeeded(size) * 4096 >= Round(size) as nat + 12 <==> InRange(size)
    ensures InRange(size) ==> PagesNeeded(size) > 0 && (PagesNeeded(size) - 1) * 4096 < Round(size) as nat + 12
    ensures PagesNeeded(0xFFFFFFF4) == 0
  {
    hide Round, PagesFor;
    PagesForIff((Round(size) as nat + 12) % 0x1_0000_0000);
    RoundLast();
    PagesForIff(0);
  }

  lemma RoundLast()
    ensures Round(0xFFFFFFF4) == 0xFFFFFFF4
  {
  }

  /** The rounded size covers the request exactly when the rounding does not wrap. */
  lemma RoundCoversIff(size: Word)
    ensures Round(size) >= size <==> size <= 0xFFFFFFFC
  {
  }

  // ----- runs of free pages -----

  predicate FreeRun(used: set<nat>, n: nat, p: nat, k: nat) {
    p + k <= n && forall q | p <= q < p + k :: q !in used
  }

  /** The lowest p >= from at which k free pages start, or n. */
  function LowestRun(used: set<nat>, n: nat, k: nat, from: nat): (p: nat)
    requires from <= n
    ensures from <= p <= n && (p < n ==> FreeRun(used, n, p, k))
    decreases n - from
  {
    if from == n || FreeRun(used, n, from, k) then from else LowestRun(used, n, k, from + 1)
  }

  lemma {:induction false} LowestRunFirst(used: set<nat>, n: nat, k: nat, from: nat, p: nat)
    requires k > 0 && from <= p <= n
    requires forall q | from <= q < p :: !FreeRun(used, n, q, k)
    requires p == n || FreeRun(used, n, p, k)
    ensures LowestRun(used, n, k, from) == p
    decreases n - from
  {
    if from < p {
      LowestRunFirst(used, n, k, from + 1, p);
    }
  }

  // ----- the two calls -----

  datatype Source = Fit(i: nat) | NewPages(p: nat) | Nothing

  /** Where kmalloc takes a block from: the first fitting free block, else the lowest run of enough free pages. */
  function Pick(h: HeapSt, size: Word): (s: Source)
    requires InRange(size)
    ensures s.Fit? ==> s.i < |h.blocks| && h.blocks[s.i].free && h.blocks[s.i].size >= Round(size)
    ensures s.NewPages? ==> FreeRun(h.used, h.n, s.p, PagesNeeded(size))
  {
    var i := FirstFit(h.blocks, Round(size), 0);
    var p := LowestRun(h.used, h.n, PagesNeeded(size), 0);
    if i < |h.blocks| then Fit(i) else if p < h.n then NewPages(p) else Nothing
  }

  function Malloc(h: HeapSt, size: Word): HeapSt
    requires InRange(size)
  {
    if size == 0 then h
    else match Pick(h, size)
      case Fit(i) => h.(blocks := TakeAt(h.blocks, i, Round(size)))
      case NewPages(p) =>
        PagesEnoughIff(size);
        var more := PageRun(p, PagesNeeded(size));
        h.(blocks := h.blocks + Fresh(p, PagesNeeded(size), Round(size)), pages := h.pages + more, used := h.used + more)
      case Nothing => h
  }

  /** The word address of the block taken; 0 is the null pointer. */
  function MallocAt(h: HeapSt, size: Word): nat
    requires InRange(size)
  {
    if size == 0 then 0
    else match Pick(h, size)
      case Fit(i) => h.blocks[i].at
      case NewPages(p) => p * PAGE
      case Nothing => 0
  }

  /** Index of the block at word address a, or |bs|. */
  function Owner(bs: seq<Blk>, a: nat, from: nat): (i: nat)
    requires from <= |bs|
    ensures from <= i <= |bs| && (i < |bs| ==> bs[i].at == a)
    decreases |bs| - from
  {
    if from == |bs| || bs[from].at == a then from else Owner(bs, a, from + 1)
  }

  /** kfree of the block at a; only a block in use may be freed. */
  function FreeBlk(h: HeapSt, a: nat): HeapSt {
    var i := Owner(h.blocks, a, 0);
    if i < |h.blocks| && !h.blocks[i].free then h.(blocks := FreeAt(h.blocks, i)) else h
  }

  // ----- what they keep -----

  lemma {:induction false} FirstFitNone(bs: seq<Blk>, size: nat, from: nat, k: nat)
    requires from <= k < |bs| && bs[k].free && bs[k].size >= size
    ensures FirstFit(bs, size, from) <= k
    decreases |bs| - from
  {
    if !(bs[from].free && bs[from].size >= size) {
      FirstFitNone(bs, size, from + 1, k);
    }
  }

  lemma {:induction false} LowestRunNone(used: set<nat>, n: nat, k: nat, from: nat, q: nat)
    requires k > 0 && from <= q < n && FreeRun(used, n, q, k)
    ensures LowestRun(used, n, k, from) <= q
    decreases n - from
  {
    if !FreeRun(used, n, from, k) {
      LowestRunNone(used, n, k, from + 1, q);
    }
  }

  ghost predicate Fits(h: HeapSt, i: nat, size: Word) {
    i < |h.blocks| && h.blocks[i].free && h.blocks[i].size >= Round(size)
  }

  ghost predicate RunAt(h: HeapSt, p: nat, size: Word) {
    FreeRun(h.used, h.n, p, PagesNeeded(size))
  }

  /** First fit, then lowest run; null exactly when there is neither. */
  lemma PickIff(h: HeapSt, size: Word)
    requires InRange(size)
    ensures (exists i :: Fits(h, i, size)) <==> Pick(h, size).Fit?
    ensures forall i :: Fits(h, i, size) ==> Pick(h, size).i <= i
    ensures Pick(h, size).NewPages? ==> forall p :: RunAt(h, p, size) ==> Pick(h, size).p <= p
    ensures Pick(h, size).Nothing? <==> (forall i :: !Fits(h, i, size)) && (forall p :: !RunAt(h, p, size))
  {
    PagesEnoughIff(size);
    forall i | Fits(h, i, size) ensures FirstFit(h.blocks, Round(size), 0) <= i {
      FirstFitNone(h.blocks, Round(size), 0, i);
    }
    forall p | RunAt(h, p, size) ensures LowestRun(h.used, h.n, PagesNeeded(size), 0) <= p {
      LowestRunNone(h.used, h.n, PagesNeeded(size), 0, p);
    }
    if Pick(h, size).Fit? {
      assert Fits(h, Pick(h, size).i, size);
    }
    if Pick(h, size).NewPages? {
      assert RunAt(h, Pick(h, size).p, size);
    }
  }

  lemma MallocNullIff(h: HeapSt, size: Word)
    requires HeapInv(h) && InRange(size) && size > 0
    ensures MallocAt(h, size) == 0 <==> (forall i :: !Fits(h, i, size)) && (forall p :: !RunAt(h, p, size))
  {
    hide HeapOk, FirstFit, LowestRun;
    PickIff(h, size);
    PagesEnoughIff(size);
    if Pick(h, size).Fit? {
      BlkOkAt(h, Pick(h, size).i);
    }
  }

  lemma BlkOkAt(h: HeapSt, i: nat)
    requires HeapInv(h) && i < |h.blocks|
    ensures BlkOk(h.blocks[i])
  {
  }

  /** The block a successful call hands out, as it stands in the list afterwards. */
  function Got(h: HeapSt, size: Word): Blk
    requires InRange(size) && size > 0 && !Pick(h, size).Nothing?
  {
    match Pick(h, size)
      case Fit(i) => Take(h.blocks[i], Round(size))[0]
      case NewPages(p) => PagesEnoughIff(size); Fresh(p, PagesNeeded(size), Round(size))[0]
  }

  /** How many blocks in use come before it in the list. */
  function GotIndex(h: HeapSt, size: Word): nat
    requires InRange(size) && size > 0 && !Pick(h, size).Nothing?
  {
    match Pick(h, size)
      case Fit(i) => |Live(h.blocks[..i])|
      case NewPages(p) => |Live(h.blocks)|
  }

  lemma LiveTake(b: Blk, size: nat)
    ensures Live(Take(b, size)) == [Take(b, size)[0]]
  {
    var t := Take(b, size);
    if |t| == 2 {
      assert t == [t[0]] + [t[1]];
      LiveConcat([t[0]], [t[1]]);
      LiveOne(t[1]);
    } else {
      assert t == [t[0]];
    }
    LiveOne(t[0]);
  }

  lemma LiveTakeAt(bs: seq<Blk>, i: nat, size: nat)
    requires i < |bs| && bs[i].free
    ensures Live(bs) == Live(bs[..i]) + Live(bs[i + 1..])
    ensures Live(TakeAt(bs, i, size)) == Live(bs[..i]) + [Take(bs[i], size)[0]] + Live(bs[i + 1..])
  {
    hide Live, Take;
    LiveAround(bs, i);
    LiveOne(bs[i]);
    LiveConcat(bs[..i] + Take(bs[i], size), bs[i + 1..]);
    LiveConcat(bs[..i], Take(bs[i], size));
    LiveTake(bs[i], size);
  }

  /** A new run of free pages is apart from what the heap has. */
  lemma RunFresh(h: HeapSt, p: nat, k: nat)
    requires HeapInv(h) && FreeRun(h.used, h.n, p, k) && k > 0
    ensures PageRun(p, k) !! h.used && p > 0 && PageRun(p, k) !! h.pages
    ensures forall q | q in PageRun(p, k) :: q < h.n
  {
    hide HeapOk;
    forall q ensures q in PageRun(p, k) <==> p <= q < p + k {
      if q >= 0 {
        PagesIn(p, k, q);
      }
    }
  }

  /**
   kmalloc keeps the heap well formed. On success exactly one block in use is added, at the address
   returned, large enough for the rounded request and at most 28 bytes larger; all others stay as they are.
   */
  lemma MallocKeeps(h: HeapSt, size: Word)
    requires HeapInv(h) && InRange(size)
    ensures HeapInv(Malloc(h, size))
    ensures size > 0 && !Pick(h, size).Nothing? ==>
      && Got(h, size).at == MallocAt(h, size) && Round(size) <= Got(h, size).size <= Round(size) as nat + 28
      && GotIndex(h, size) <= |Live(h.blocks)|
      && Live(Malloc(h, size).blocks) == Live(h.blocks)[..GotIndex(h, size)] + [Got(h, size)] + Live(h.blocks)[GotIndex(h, size)..]
    ensures size == 0 || Pick(h, size).Nothing? ==> Malloc(h, size) == h
  {
    hide FirstFit, LowestRun, HeapOk, Take, Live, PageRun, FreeRun, PagesNeeded, Round;
    if size > 0 {
      match Pick(h, size)
      case Fit(i) =>
        TakeKeeps(h.blocks, i, Round(size), h.pages);
        LiveTakeAt(h.blocks, i, Round(size));
        GotSize(h, size);
      case NewPages(p) =>
        var k := PagesNeeded(size);
        PagesEnoughIff(size);
        RunFresh(h, p, k);
        FreshKeeps(h.blocks, p, k, Round(size), h.pages);
        LiveConcat(h.blocks, Fresh(p, k, Round(size)));
        LiveTake(Blk(p * PAGE, k * 4096 - 12, true, 0), Round(size));
        GotSize(h, size);
      case Nothing =>
    }
  }

  /**
   The pages of the heap after kmalloc: as many as needed, a run that was free, and only if no block
   fits; exactly these are marked. kfree leaves the pages as they are.
   */
  lemma MallocPages(h: HeapSt, size: Word)
    requires HeapInv(h) && InRange(size)
    ensures var r := Malloc(h, size);
      && r.n == h.n && h.pages <= r.pages && r.used == h.used + (r.pages - h.pages) && (r.pages - h.pages) !! h.used
      && |r.pages - h.pages| == (if size > 0 && Pick(h, size).NewPages? then PagesNeeded(size) else 0)
      && forall q | q in r.pages - h.pages :: Pick(h, size).NewPages? && Pick(h, size).p <= q < Pick(h, size).p + PagesNeeded(size)
    ensures forall a: nat :: FreeBlk(h, a).pages == h.pages && FreeBlk(h, a).used == h.used && FreeBlk(h, a).n == h.n
  {
    hide FirstFit, LowestRun, HeapOk, TakeAt, Fresh, PageRun, FreeRun, PagesNeeded, Round, FreeAt;
    if size > 0 && Pick(h, size).NewPages? {
      var p, k := Pick(h, size).p, PagesNeeded(size);
      PagesEnoughIff(size);
      RunFresh(h, p, k);
      PagesCount(p, k);
      assert Malloc(h, size).pages - h.pages == PageRun(p, k);
      forall q | q in PageRun(p, k) ensures p <= q < p + k {
        PagesIn(p, k, q);
      }
    } else {
      assert Malloc(h, size).pages - h.pages == {};
    }
  }

  lemma GotSize(h: HeapSt, size: Word)
    requires HeapInv(h) && InRange(size) && size > 0 && !Pick(h, size).Nothing?
    ensures Got(h, size).at == MallocAt(h, size) && Round(size) <= Got(h, size).size <= Round(size) as nat + 28
  {
    hide FirstFit, LowestRun, HeapOk, FreeRun, PageRun, Round, PagesNeeded;
    PagesEnoughIff(size);
  }

  /** kfree of a block in use removes exactly it from the blocks in use. */
  lemma FreeBlkKeeps(h: HeapSt, a: nat)
    requires HeapInv(h)
    ensures HeapInv(FreeBlk(h, a))
    ensures var i := Owner(h.blocks, a, 0);
      i < |h.blocks| && !h.blocks[i].free ==>
        && Live(h.blocks) == Live(h.blocks[..i]) + [h.blocks[i]] + Live(h.blocks[i + 1..])
        && Live(FreeBlk(h, a).blocks) == Live(h.blocks[..i]) + Live(h.blocks[i + 1..])
  {
    hide HeapOk, Live, Owner;
    var i := Owner(h.blocks, a, 0);
    if i < |h.blocks| && !h.blocks[i].free {
      FreeKeeps(h.blocks, i, h.pages);
    }
  }

  datatype Call = Kmalloc(size: Word) | Kfree(at: nat)

  function After(h: HeapSt, calls: seq<Call>): HeapSt
    requires forall c | c in calls :: c.Kmalloc? ==> InRange(c.size)
  {
    if calls == [] then h
    else
      var g := After(h, calls[..|calls| - 1]);
      match calls[|calls| - 1]
      case Kmalloc(size) => Malloc(g, size)
      case Kfree(a) => FreeBlk(g, a)
  }

  /** The heap is well formed after every run of calls. */
  lemma {:induction false} RunKeeps(h: HeapSt, calls: seq<Call>)
    requires HeapInv(h) && forall c | c in calls :: c.Kmalloc? ==> InRange(c.size)
    ensures HeapInv(After(h, calls))
  {
    hide HeapInv, Malloc, FreeBlk;
    if calls != [] {
      var g := After(h, calls[..|calls| - 1]);
      RunKeeps(h, calls[..|calls| - 1]);
      match calls[|calls| - 1]
      case Kmalloc(size) => MallocKeeps(g, size);
      case Kfree(a) => FreeBlkKeeps(g, a);
    }
  }

  /** An empty heap is well formed, and what a well-formed heap means. */
  lemma EmptyHeap(used: set<nat>, n: nat)
    requires 0 in used && n <= MAXPAGES && forall p | p in used :: p < n
    ensures HeapInv(HeapSt([], {}, used, n))
  {
    forall w: nat ensures !Covered([], w) {
      NoneCovered(w);
    }
  }

  /** Payloads of blocks in use are 4-aligned, at least as large as rounded, and share no word. */
  lemma LivePayloads(h: HeapSt, i: nat, j: nat, w: nat)
    requires HeapInv(h) && i < j < |h.blocks|
    ensures !(InPayload(h.blocks[i], w) && InPayload(h.blocks[j], w))
    ensures Sum(h.blocks) == 4096 * |h.pages|
    ensures !(h.blocks[i].free && h.blocks[i + 1].free && End(h.blocks[i]) == h.blocks[i + 1].at)
  {
    hide Sum, Covered, End;
    assert Apart(h.blocks[i], h.blocks[j]);
    assert !Mergeable(h.blocks[i], h.blocks[i + 1]);
  }
}
