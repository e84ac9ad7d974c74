/** kmalloc and kfree as they run: walking and rewriting the headers in memory. */
module KernelHeap {
  import opened Pages
  import opened HeapList
  import opened Heap
  import opened HeapLinks

  /** The header written for one taken block, and for the remainder if it was split. */
  lemma TakeHeaders(w2: seq<Word>, b: Blk, size: nat, next: nat)
    requires b.size % 4 == 0 && size % 4 == 0 && b.size >= size
    requires b.size > size + 28 ==>
      && Header(w2, Blk(b.at, size, false, size), (b.at + 3 + size / 4) * 4)
      && Header(w2, Blk(b.at + 3 + size / 4, b.size - size - 12, true, 0), next)
    requires b.size <= size + 28 ==> Header(w2, Blk(b.at, b.size, false, size), next)
    ensures |Take(b, size)| > 0 && Take(b, size)[0].at == b.at
    ensures forall k | 0 <= k < |Take(b, size)| :: Header(w2, Take(b, size)[k], AddrThen(Take(b, size), k + 1, next))
  {
    hide Header;
  }

  /** The words the taking of block b writes lie in b. */
  lemma TakeInside(b: Blk, size: nat)
    requires b.size % 4 == 0 && size % 4 == 0 && b.size > size + 28
    ensures b.at + 3 + size / 4 + 3 < End(b)
  {
  }

  lemma HeadAt(words: seq<Word>, head: nat, bs: seq<Blk>)
    requires Linked(words, head, bs)
    ensures head == Addr(bs, 0)
  {
  }

  lemma HeaderAt(words: seq<Word>, head: nat, bs: seq<Blk>, i: nat)
    requires Linked(words, head, bs) && i < |bs|
    ensures var b := bs[i];
      b.at + 3 <= |words| && words[b.at] as nat == b.size && words[b.at + 1] == (if b.free then 1 else 0) && words[b.at + 2] as nat == Addr(bs, i + 1)
  {
    assert Header(words, bs[i], Addr(bs, i + 1));
  }

  lemma TwoPuts(w1: seq<Word>, w2: seq<Word>, w3: seq<Word>, b: Blk, size: nat, next: nat)
    requires b.size % 4 == 0 && size % 4 == 0 && b.size > size + 28
    requires SameBut(w1, w2, b.at + 3 + size / 4) && SameBut(w2, w3, b.at)
    requires Header(w2, Blk(b.at + 3 + size / 4, b.size - size - 12, true, 0), next)
    ensures Header(w3, Blk(b.at + 3 + size / 4, b.size - size - 12, true, 0), next) && SameOutside(w1, w3, b)
  {
    TakeInside(b, size);
  }

  lemma FitStep(bs: seq<Blk>, size: nat, i: nat)
    requires i < |bs| && !(bs[i].free && bs[i].size >= size)
    ensures FirstFit(bs, size, i) == FirstFit(bs, size, i + 1)
  {
  }

  class Kernel {
    const pm: Memory
    var head: Word
    ghost var blocks: seq<Blk>
    ghost var pages: set<nat>

    ghost predicate Valid()
      reads this, pm, pm.bitmap, pm.mem
    {
      pm.Valid() && HeapInv(Hs()) && Linked(pm.mem[..], head, blocks)
    }

    ghost function Hs(): HeapSt
      reads this, pm, pm.bitmap, pm.mem
      requires pm.Valid()
    {
      HeapSt(blocks, pages, pm.St().used, pm.pages)
    }

    constructor (memory: Memory)
      requires memory.Valid() && 0 in memory.St().used
      ensures Valid() && pm == memory && blocks == [] && pages == {}
    {
      pm, head, blocks, pages := memory, 0, [], {};
      new;
      EmptyHeap(pm.St().used, pm.pages);
    }

    /** Walk the list to the first free block that is large enough; prev is the block before it, or 0. */
    method Fit(r: Word) returns (ghost i: nat, curr: Word, prev: Word)
      requires pm.Valid() && Laid(blocks, pages, pm.pages) && Linked(pm.mem[..], head, blocks)
      ensures i == FirstFit(blocks, r, 0) && curr as nat == Addr(blocks, i)
      ensures prev as nat == if i == 0 then 0 else Addr(blocks, i - 1)
    {
      hide Partition, FirstFit, Linked, Laid, Header;
      HeadAt(pm.mem[..], head, blocks);
      i, curr, prev := 0, head, 0;
      while curr != 0
        invariant i <= |blocks| && curr as nat == Addr(blocks, i)
        invariant prev as nat == if i == 0 then 0 else Addr(blocks, i - 1)
        invariant FirstFit(blocks, r, 0) == FirstFit(blocks, r, i)
        decreases |blocks| - i
      {
        var a := curr / 4;
        HeaderAt(pm.mem[..], head, blocks, i);
        if pm.mem[a + 1] != 0 && pm.mem[a] >= r {
          FitHere(blocks, r, i);
          return;
        }
        FitStep(blocks, r, i);
        prev := curr;
        curr := pm.mem[a + 2];
        i := i + 1;
      }
      FitEnd(blocks, r, i, pages, pm.pages);
    }

    /** Split the block at word a if the remainder is worth it, and mark it as in use. */
    method TakeBlock(a: nat, r: Word, ghost i: nat)
      requires pm.Valid() && Laid(blocks, pages, pm.pages) && Linked(pm.mem[..], head, blocks)
      requires i < |blocks| && a == blocks[i].at && blocks[i].free && blocks[i].size >= r && r % 4 == 0
      requires r as nat + 28 < 0x1_0000_0000
      modifies pm.mem
      ensures SameOutside(old(pm.mem[..]), pm.mem[..], blocks[i])
      ensures Linked(pm.mem[..], head, TakeAt(blocks, i, r))
    {
      hide Partition, Take, Header;
      ghost var b := blocks[i];
      ghost var was := pm.mem[..];
      Inside(blocks, i, pages, pm.pages);
      HeaderAt(was, head, blocks, i);
      if pm.mem[a] > r + 12 + 16 {
        TakeInside(b, r);
        PutHeader(a + 3 + r / 4, pm.mem[a] - r - 12, true, pm.mem[a + 2]);
        ghost var mid := pm.mem[..];
        PutHeader(a, r, false, (a + 3 + r / 4) * 4);
        TwoPuts(was, mid, pm.mem[..], b, r, Addr(blocks, i + 1));
      } else {
        PutHeader(a, pm.mem[a], false, pm.mem[a + 2]);
      }
      TakeHeaders(pm.mem[..], b, r, Addr(blocks, i + 1));
      ReplaceLinked(was, pm.mem[..], head, blocks, i, Take(b, r), pages);
    }

    method PutHeader(a: nat, size: Word, free: bool, next: Word)
      requires pm.Valid() && a + 3 <= pm.mem.Length
      modifies pm.mem
      ensures SameBut(old(pm.mem[..]), pm.mem[..], a)
      ensures forall b: Blk | b.at == a && b.size == size as nat && b.free == free :: Header(pm.mem[..], b, next as nat)
    {
      pm.mem[a] := size;
      pm.mem[a + 1] := if free then 1 else 0;
      pm.mem[a + 2] := next;
    }

    /** Scan for the lowest run of k free pages. */
    method FindRun(k: nat) returns (start: nat, found: bool)
      requires pm.Valid() && k > 0
      ensures start <= pm.pages && found == (start < pm.pages)
      ensures start == LowestRun(pm.St().used, pm.pages, k, 0)
    {
      hide LowestRun, UsedIn;
      var count, i := 0, 0;
      start := 0;
      var n := pm.pages;
      ghost var used := pm.St().used;
      while i < n
        invariant i <= n && count <= i && count < k
        invariant count > 0 ==> start == i - count
        invariant forall q | i - count <= q < i :: q !in used
        invariant forall q | 0 <= q < i - count :: !FreeRun(used, n, q, k)
        invariant i > count ==> i - count - 1 in used
      {
        var b := pm.IsUsed(i);
        if !b {
          if count == 0 {
            start := i;
          }
          count := count + 1;
          if count == k {
            found := true;
            LowestRunFirst(used, n, k, 0, start);
            return;
          }
        } else {
          count := 0;
        }
        i := i + 1;
      }
      start, found := n, false;
      forall q | 0 <= q < n ensures !FreeRun(used, n, q, k) {
      }
      LowestRunFirst(used, n, k, 0, n);
    }

    /** Mark k pages from p on as in use. */
    method Claim(p: nat, k: nat)
      requires pm.Valid() && FreeRun(pm.St().used, pm.pages, p, k)
      modifies pm, pm.bitmap
      ensures pm.Valid() && pm.St().used == old(pm.St().used) + PageRun(p, k)
      ensures Counted(old(pm.St())) ==> Counted(pm.St())
    {
      hide UsedIn, Counted, FreeRun, PageRun;
      ghost var was := pm.St();
      RunInside(was.used, pm.pages, p, k);
      ClaimStart(was.used, p);
      var i := p;
      while i < p + k
        invariant p <= i <= p + k && pm.Valid() && pm.St().used == was.used + PageRun(p, i - p)
        invariant Counted(was) ==> Counted(pm.St())
      {
        ghost var now := pm.St();
        ClaimStep(was.used, pm.pages, p, k, i - p);
        pm.MarkUsed(i);
        if Counted(was) {
          MarkCounted(now, i);
        }
        i := i + 1;
      }
    }

    /** Headers for a fresh block at word a, taken for r bytes. */
    method LayOut(a: nat, size: Word, r: Word)
      requires pm.Valid() && size % 4 == 0 && r % 4 == 0 && r <= size && r as nat + 28 < 0x1_0000_0000
      requires a + 3 + size / 4 <= pm.mem.Length && (a + 3 + size / 4) * 4 < 0x1_0000_0000
      modifies pm.mem
      ensures SameOutside(old(pm.mem[..]), pm.mem[..], Blk(a, size, true, 0))
      ensures forall j | 0 <= j < |Take(Blk(a, size, true, 0), r)| ::
        Header(pm.mem[..], Take(Blk(a, size, true, 0), r)[j], AddrThen(Take(Blk(a, size, true, 0), r), j + 1, 0))
    {
      hide Take, Header;
      ghost var big := Blk(a, size, true, 0);
      ghost var was := pm.mem[..];
      PutHeader(a, size, false, 0);
      if size > r + 12 + 16 {
        TakeInside(big, r);
        ghost var first := pm.mem[..];
        PutHeader(a + 3 + r / 4, size - r - 12, true, 0);
        ghost var mid := pm.mem[..];
        PutHeader(a, r, false, (a + 3 + r / 4) * 4);
        TwoPuts(first, mid, pm.mem[..], big, r, 0);
      }
      TakeHeaders(pm.mem[..], big, r, 0);
    }

    /** Lay out k fresh pages at page p as the taken block and its remainder, and append them to the list. */
    method Append(p: nat, k: nat, r: Word, prev: Word)
      requires pm.Valid() && Laid(blocks, pages, pm.pages) && Linked(pm.mem[..], head, blocks)
      requires p > 0 && k > 0 && p + k <= pm.pages && r % 4 == 0 && r as nat + 12 <= k * 4096 && PageRun(p, k) !! pages
      requires prev as nat == if |blocks| == 0 then 0 else Addr(blocks, |blocks| - 1)
      requires r as nat + 28 < 0x1_0000_0000
      modifies this`head, pm.mem
      ensures Linked(pm.mem[..], head, blocks + Fresh(p, k, r))
      ensures Kept(old(pm.mem[..]), pm.mem[..], Live(blocks), pages + PageRun(p, k))
    {
      hide Partition, Take, Header, Live, PageRun, Linked;
      ghost var big := Blk(p * PAGE, k * 4096 - 12, true, 0);
      ghost var was := pm.mem[..];
      var a, size := p * 1024, k * 4096 - 12;
      LayOut(a, size, r);
      ghost var mid := pm.mem[..];
      if |blocks| > 0 {
        Inside(blocks, |blocks| - 1, pages, pm.pages);
      }
      if prev != 0 {
        pm.mem[prev / 4 + 2] := a * 4;
      } else {
        head := a * 4;
      }
      AppendDone(was, mid, pm.mem[..], old(head), blocks, p, k, r, pages);
      AppendKept(was, mid, pm.mem[..], blocks, p, k, pages);
    }

    method Kmalloc(size: Word) returns (ptr: Word)
      requires Valid() && InRange(size)
      modifies this, pm, pm.bitmap, pm.mem
      ensures Valid() && Hs() == Malloc(old(Hs()), size)
      ensures ptr as nat == if MallocAt(old(Hs()), size) == 0 then 0 else (MallocAt(old(Hs()), size) + 3) * 4
      ensures Kept(old(pm.mem[..]), pm.mem[..], Live(old(blocks)), pages)
      ensures Counted(old(pm.St())) ==> Counted(pm.St())
    {
      hide HeapInv, Linked, Kept, FirstFit, LowestRun, TakeAt, Fresh, PageRun, UsedIn, Counted, Live, Partition, Laid, Addr, AddrThen, SameOutside, Round, PagesFor, Header, FreeRun;
      ptr := 0;
      ghost var was := Hs();
      ghost var words := pm.mem[..];
      KeptSame(words, Live(blocks), pages);
      if size == 0 {
        return;
      }
      var r := (size as nat + 3) % 0x1_0000_0000 / 4 * 4;
      MallocKeeps(was, size);
      HeapLaid(was);
      RoundIs(size);
      ghost var i;
      var curr, prev;
      i, curr, prev := Fit(r);
      FitWhere(was, i, size);
      if curr != 0 {
        TakeBlock(curr / 4, r, i);
        FreeKept(words, pm.mem[..], blocks, i, pages);
        blocks := TakeAt(blocks, i, r);
        ptr := curr + 12;
        CountedSame(old(pm.St()), pm.St());
      } else {
        ptr := Grow(size, r, prev);
      }
    }

    /** No block fits: take the lowest run of enough free pages, if there is one. */
    method Grow(size: Word, r: Word, prev: Word) returns (ptr: Word)
      requires Valid() && InRange(size) && size > 0 && r == Round(size) && FirstFit(blocks, r, 0) == |blocks|
      requires prev as nat == if |blocks| == 0 then 0 else Addr(blocks, |blocks| - 1)
      modifies this, pm, pm.bitmap, pm.mem
      ensures Valid() && Hs() == Malloc(old(Hs()), size)
      ensures ptr as nat == if MallocAt(old(Hs()), size) == 0 then 0 else (MallocAt(old(Hs()), size) + 3) * 4
      ensures Kept(old(pm.mem[..]), pm.mem[..], Live(old(blocks)), pages)
      ensures Counted(old(pm.St())) ==> Counted(pm.St())
    {
      hide HeapInv, Linked, Kept, FirstFit, LowestRun, TakeAt, Fresh, PageRun, UsedIn, Counted, Live, Partition, Laid, Addr, AddrThen, SameOutside, Round, PagesFor, Header, FreeRun;
      ptr := 0;
      ghost var was := Hs();
      MallocKeeps(was, size);
      HeapLaid(was);
      KeptSame(pm.mem[..], Live(blocks), pages);
      var k := ((r as nat + 12) % 0x1_0000_0000 + 4095) % 0x1_0000_0000 / 4096;
      PagesEnoughIff(size);
      PagesIs(size);
      var p, found := FindRun(k);
      if found {
        RunFresh(was, p, k);
        RunInside(was.used, was.n, p, k);
        Claim(p, k);
        ghost var claimed := pm.St();
        Append(p, k, r, prev);
        blocks, pages := blocks + Fresh(p, k, r), pages + PageRun(p, k);
        ptr := p * 4096 + 12;
        CountedSame(claimed, pm.St());
      }
    }

    method Kfree(ptr: Word)
      requires Valid()
      requires ptr != 0 ==> exists i :: 0 <= i < |blocks| && !blocks[i].free && ptr as nat == (blocks[i].at + 3) * 4
      modifies this`blocks, pm.mem
      ensures Valid() && Hs() == if ptr == 0 then old(Hs()) else FreeBlk(old(Hs()), ptr / 4 - 3)
      ensures Kept(old(pm.mem[..]), pm.mem[..], Live(blocks), pages)
    {
      hide HeapInv, Linked, Kept, UsedIn, Live, Partition, Laid, Header, FreeAt, Coalesce, Merge, Addr;
      ghost var words := pm.mem[..];
      KeptSame(words, Live(blocks), pages);
      if ptr == 0 {
        return;
      }
      ghost var was := Hs();
      ghost var o :| 0 <= o < |blocks| && !blocks[o].free && ptr as nat == (blocks[o].at + 3) * 4;
      HeapLaid(was);
      OwnerIs(blocks, o, pages);
      FreeBlkKeeps(was, ptr / 4 - 3);
      MarkBlock(ptr / 4 - 3, o);
      ghost var goal := FreeAt(was.blocks, o);
      ghost var i: nat := 0;
      FreeStart(was.blocks, o);
      HeadAt(pm.mem[..], head, blocks);
      var curr: Word := head;
      CurrInside(blocks, 0, pages, pm.pages);
      while curr != 0 && pm.mem[curr / 4 + 2] != 0
        invariant pm.Valid() && Laid(blocks, pages, pm.pages) && Linked(pm.mem[..], head, blocks)
        invariant i <= |blocks| && curr as nat == Addr(blocks, i) && (curr != 0 ==> curr / 4 + 2 < pm.mem.Length)
        invariant Coalesce(blocks, i) == goal && Kept(words, pm.mem[..], Live(blocks), pages)
        decreases |blocks|, |blocks| - i
      {
        curr, i := CoalesceOne(curr, i, words);
      }
      CurrInside(blocks, i, pages, pm.pages);
      if curr != 0 {
        HeaderAt(pm.mem[..], head, blocks, i);
        CurrInside(blocks, i + 1, pages, pm.pages);
      }
      CoalesceEnd(blocks, i);
    }

    /** One round of the coalescing pass at block i: merge with the successor, or move on to it. */
    method CoalesceOne(curr: Word, ghost i: nat, ghost words: seq<Word>) returns (next: Word, ghost j: nat)
      requires pm.Valid() && Laid(blocks, pages, pm.pages) && Linked(pm.mem[..], head, blocks)
      requires i <= |blocks| && curr as nat == Addr(blocks, i) && curr != 0 && curr / 4 + 2 < pm.mem.Length
      requires pm.mem[curr / 4 + 2] != 0
      requires Kept(words, pm.mem[..], Live(blocks), pages)
      modifies this`blocks, pm.mem
      ensures Laid(blocks, pages, pm.pages) && Linked(pm.mem[..], head, blocks)
      ensures j <= |blocks| && next as nat == Addr(blocks, j) && (next != 0 ==> next / 4 + 2 < pm.mem.Length)
      ensures Coalesce(blocks, j) == Coalesce(old(blocks), i) && Kept(words, pm.mem[..], Live(blocks), pages)
      ensures |blocks| < old(|blocks|) || (|blocks| == old(|blocks|) && j == i + 1)
    {
      hide Linked, Kept, Live, Partition, Laid, Header, Coalesce, Merge, Addr;
      var a := curr / 4;
      CurrInside(blocks, i, pages, pm.pages);
      CurrInside(blocks, i + 1, pages, pm.pages);
      HeaderAt(pm.mem[..], head, blocks, i);
      var n := pm.mem[a + 2] / 4;
      HeaderAt(pm.mem[..], head, blocks, i + 1);
      CoalesceStep(blocks, i);
      next, j := curr, i;
      if pm.mem[a + 1] != 0 && pm.mem[n + 1] != 0 && (curr + 12 + pm.mem[a]) % 0x1_0000_0000 == pm.mem[a + 2] {
        MergeNext(a, n, i);
        CurrInside(blocks, i, pages, pm.pages);
        SameAddr(old(blocks), i, blocks);
      } else {
        next, j := pm.mem[a + 2], i + 1;
      }
    }

    /** Merge block i at word a with its successor at word n. */
    method MergeNext(a: nat, n: nat, ghost i: nat)
      requires pm.Valid() && Laid(blocks, pages, pm.pages) && Linked(pm.mem[..], head, blocks)
      requires i + 1 < |blocks| && Mergeable(blocks[i], blocks[i + 1]) && a == blocks[i].at && n == blocks[i + 1].at
      modifies this`blocks, pm.mem
      ensures i < |blocks| < old(|blocks|) && blocks[i].at == old(blocks[i].at)
      ensures blocks == old(blocks[..i] + [Merge(blocks[i], blocks[i + 1])] + blocks[i + 2..])
      ensures Laid(blocks, pages, pm.pages) && Linked(pm.mem[..], head, blocks)
      ensures Live(blocks) == old(Live(blocks))
      ensures forall w | Kept(w, old(pm.mem[..]), old(Live(blocks)), pages) :: Kept(w, pm.mem[..], Live(blocks), pages)
    {
      hide Laid, Partition, Linked, Kept, Header, Live, Merge;
      ghost var was, bs := pm.mem[..], blocks;
      ghost var m := Merge(bs[i], bs[i + 1]);
      LaidParts(bs, pages, pm.pages);
      Inside(bs, i, pages, pm.pages);
      Inside(bs, i + 1, pages, pm.pages);
      HeaderAt(was, head, bs, i);
      HeaderAt(was, head, bs, i + 1);
      MergeLaid(bs, i, pages, pm.pages);
      blocks := bs[..i] + [m] + bs[i + 2..];
      Inside(blocks, i, pages, pm.pages);
      MergeSize(bs[i], bs[i + 1]);
      pm.mem[a] := pm.mem[a] + 12 + pm.mem[n];
      pm.mem[a + 2] := pm.mem[n + 2];
      MergeHeader(was, pm.mem[..], bs[i], bs[i + 1], Addr(bs, i + 2));
      MergeLinked(was, pm.mem[..], head, bs, i, pages);
      LiveMerge(bs, i);
      HeaderKept(was, pm.mem[..], bs, i, pages);
      forall w | Kept(w, was, Live(bs), pages) ensures Kept(w, pm.mem[..], Live(bs), pages) {
        KeptTrans(w, was, pm.mem[..], Live(bs), pages);
      }
    }

    method MarkBlock(a: nat, ghost o: nat)
      requires pm.Valid() && Laid(blocks, pages, pm.pages) && Linked(pm.mem[..], head, blocks)
      requires o < |blocks| && a == blocks[o].at
      modifies this`blocks, pm.mem
      ensures blocks == old(blocks)[o := old(blocks[o]).(free := true)]
      ensures Laid(blocks, pages, pm.pages) && Linked(pm.mem[..], head, blocks)
      ensures Kept(old(pm.mem[..]), pm.mem[..], Live(blocks), pages)
    {
      hide Laid, Partition, Linked, Kept, Header, Live;
      ghost var was, b := pm.mem[..], blocks[o].(free := true);
      Inside(blocks, o, pages, pm.pages);
      HeaderAt(was, head, blocks, o);
      pm.mem[a + 1] := 1;
      MarkHeader(was, pm.mem[..], blocks[o], Addr(blocks, o + 1));
      LaidParts(blocks, pages, pm.pages);
      MarkLinked(was, pm.mem[..], head, blocks, o, b, pages);
      MarkLaid(blocks, o, pages, pm.pages);
      blocks := blocks[o := b];
      LaidParts(blocks, pages, pm.pages);
      HeaderKept(was, pm.mem[..], blocks, o, pages);
    }
  }

  lemma MergeSize(a: Blk, b: Blk)
    ensures Merge(a, b).size == a.size + 12 + b.size && Merge(a, b).at == a.at
  {
  }

  lemma MergeHeader(w1: seq<Word>, w2: seq<Word>, a: Blk, b: Blk, next: nat)
    requires a.free && a.at + 3 <= |w1| && |w2| == |w1| && Merge(a, b).size < 0x1_0000_0000 && next < 0x1_0000_0000
    requires w1[a.at + 1] == 1 && w2 == w1[a.at := a.size + 12 + b.size][a.at + 2 := next]
    ensures SameBut(w1, w2, a.at) && Header(w2, Merge(a, b), next)
  {
  }

  lemma MergeLaid(bs: seq<Blk>, i: nat, pages: set<nat>, n: nat)
    requires Laid(bs, pages, n) && i + 1 < |bs| && Mergeable(bs[i], bs[i + 1])
    ensures Laid(bs[..i] + [Merge(bs[i], bs[i + 1])] + bs[i + 2..], pages, n)
  {
    hide Partition, Merge, BlkOk;
    var r := bs[..i] + [Merge(bs[i], bs[i + 1])] + bs[i + 2..];
    MergeBlk(bs[i], bs[i + 1]);
    MergePartition(bs, i, pages);
    forall k | 0 <= k < |r| ensures BlkOk(r[k]) {
      assert r[k] == if k < i then bs[k] else if k == i then Merge(bs[i], bs[i + 1]) else bs[k + 1];
    }
  }

  /** A pointer into the list is null exactly at its end; otherwise it is in range. */
  lemma CurrInside(bs: seq<Blk>, i: nat, pages: set<nat>, n: nat)
    requires Laid(bs, pages, n)
    ensures Addr(bs, i) == 0 <==> i >= |bs|
    ensures i < |bs| ==> Addr(bs, i) == bs[i].at * 4 && bs[i].at + 3 <= n * WORDS && Addr(bs, i) + bs[i].size + 12 < 0x1_0000_0000
    ensures i < |bs| ==> bs[i].size % 4 == 0
  {
    hide Laid;
    if i < |bs| {
      Inside(bs, i, pages, n);
    }
  }

  lemma SameAddr(bs: seq<Blk>, i: nat, cs: seq<Blk>)
    requires i < |bs| && i < |cs| && cs[i].at == bs[i].at
    ensures Addr(cs, i) == Addr(bs, i)
  {
  }

  lemma CoalesceStep(bs: seq<Blk>, i: nat)
    requires i + 1 < |bs|
    ensures Mergeable(bs[i], bs[i + 1]) ==> Coalesce(bs, i) == Coalesce(bs[..i] + [Merge(bs[i], bs[i + 1])] + bs[i + 2..], i)
    ensures !Mergeable(bs[i], bs[i + 1]) ==> Coalesce(bs, i) == Coalesce(bs, i + 1)
  {
  }

  lemma CoalesceEnd(bs: seq<Blk>, i: nat)
    requires i + 1 >= |bs|
    ensures Coalesce(bs, i) == bs
  {
  }

  lemma LaidParts(bs: seq<Blk>, pages: set<nat>, n: nat)
    requires Laid(bs, pages, n)
    ensures Partition(bs, pages)
    ensures forall i | 0 <= i < |bs| :: BlkOk(bs[i])
  {
  }

  lemma MarkHeader(w1: seq<Word>, w2: seq<Word>, b: Blk, next: nat)
    requires b.at + 3 <= |w1| && w2 == w1[b.at + 1 := 1]
    requires w1[b.at] as nat == b.size && w1[b.at + 2] as nat == next
    ensures SameBut(w1, w2, b.at) && Header(w2, b.(free := true), next)
  {
  }

  lemma MarkLaid(bs: seq<Blk>, i: nat, pages: set<nat>, n: nat)
    requires Laid(bs, pages, n) && i < |bs|
    ensures Laid(bs[i := bs[i].(free := true)], pages, n)
  {
    hide Partition;
    MarkPartition(bs, i, bs[i].(free := true), pages);
  }

  lemma FreeStart(bs: seq<Blk>, i: nat)
    requires i < |bs|
    ensures FreeAt(bs, i) == Coalesce(bs[i := bs[i].(free := true)], 0)
  {
  }

  lemma {:induction false} OwnerFrom(bs: seq<Blk>, i: nat, from: nat)
    requires Disjoint(bs) && from <= i < |bs|
    ensures Owner(bs, bs[i].at, from) == i
    decreases i - from
  {
    if from < i {
      assert Apart(bs[from], bs[i]);
      EndAfter(bs[from]);
      EndAfter(bs[i]);
      OwnerFrom(bs, i, from + 1);
    }
  }

  lemma OwnerIs(bs: seq<Blk>, i: nat, pages: set<nat>)
    requires Partition(bs, pages) && i < |bs|
    ensures Owner(bs, bs[i].at, 0) == i
  {
    OwnerFrom(bs, i, 0);
  }

  lemma KeptSame(w: seq<Word>, live: seq<Blk>, pages: set<nat>)
    ensures Kept(w, w, live, pages)
  {
  }

  lemma CountedSame(m: Mem, r: Mem)
    requires r.used == m.used && r.count == m.count
    ensures Counted(m) <==> Counted(r)
  {
  }

  lemma RunInside(used: set<nat>, n: nat, p: nat, k: nat)
    requires FreeRun(used, n, p, k)
    ensures p + k <= n
  {
  }

  lemma HeapLaid(h: HeapSt)
    requires HeapInv(h)
    ensures Laid(h.blocks, h.pages, h.n) && Partition(h.blocks, h.pages) && h.n <= MAXPAGES
  {
  }

  lemma RoundIs(size: Word)
    ensures Round(size) == (size as nat + 3) % 0x1_0000_0000 / 4 * 4
  {
  }

  lemma PagesIs(size: Word)
    ensures PagesNeeded(size) == ((Round(size) as nat + 12) % 0x1_0000_0000 + 4095) % 0x1_0000_0000 / 4096
  {
  }

  /** The walk ended at a fitting block, or at the end of the list with the last block as predecessor. */
  lemma FitWhere(h: HeapSt, i: nat, size: Word)
    requires HeapInv(h) && i == FirstFit(h.blocks, Round(size), 0)
    ensures i < |h.blocks| ==> Addr(h.blocks, i) == h.blocks[i].at * 4 > 0 && h.blocks[i].free
    ensures i < |h.blocks| ==> h.blocks[i].size >= Round(size) && h.blocks[i].at * 4 + 12 < 0x1_0000_0000
    ensures i == |h.blocks| ==> Addr(h.blocks, i) == 0
  {
    hide HeapOk;
    HeapLaid(h);
    if i < |h.blocks| {
      Inside(h.blocks, i, h.pages, h.n);
    }
  }

  lemma ClaimStart(used: set<nat>, p: nat)
    ensures used + PageRun(p, 0) == used
  {
  }

  lemma ClaimStep(used: set<nat>, n: nat, p: nat, k: nat, j: nat)
    requires FreeRun(used, n, p, k) && j < k
    ensures p + j !in used + PageRun(p, j)
    ensures used + PageRun(p, j) + {p + j} == used + PageRun(p, j + 1)
  {
    PagesIn(p, j, p + j);
  }

  /** A block of the heap shares no word with a block that takes up fresh pages. */
  lemma BigApart(bs: seq<Blk>, j: nat, p: nat, k: nat, pages: set<nat>)
    requires Partition(bs, pages) && j < |bs| && k > 0 && PageRun(p, k) !! pages
    ensures Apart(bs[j], Blk(p * PAGE, k * 4096 - 12, true, 0))
  {
    BlockApart(bs, j, p, k, pages);
  }

  /** The parts of the new block lie in it. */
  lemma FreshInside(p: nat, k: nat, r: nat, j: nat)
    requires k > 0 && r % 4 == 0 && r + 12 <= k * 4096 && j < |Fresh(p, k, r)|
    ensures p * PAGE <= Fresh(p, k, r)[j].at && Fresh(p, k, r)[j].at + 3 <= (p + k) * PAGE
  {
  }

  lemma HeaderOver(w1: seq<Word>, w2: seq<Word>, b: Blk, next: nat)
    requires Header(w1, b, next) && |w1| == |w2| && forall w | b.at <= w < b.at + 3 && w < |w1| :: w1[w] == w2[w]
    ensures Header(w2, b, next)
  {
  }

  lemma RelinkLast(w1: seq<Word>, w2: seq<Word>, b: Blk, next: Word)
    requires Header(w1, b, 0) && w2 == w1[b.at + 2 := next]
    ensures Header(w2, b, next as nat) && SameBut(w1, w2, b.at)
  {
  }

  /** After the new headers (mid) and the link to them (w2): the list is complete ... */
  lemma AppendDone(w1: seq<Word>, mid: seq<Word>, w2: seq<Word>, head: nat, bs: seq<Blk>, p: nat, k: nat, r: nat, pages: set<nat>)
    requires Partition(bs, pages) && k > 0 && r % 4 == 0 && r + 12 <= k * 4096 && PageRun(p, k) !! pages
    requires Linked(w1, head, bs) && p + k <= MAXPAGES && |w2| == |w1|
    requires SameOutside(w1, mid, Blk(p * PAGE, k * 4096 - 12, true, 0))
    requires forall j | 0 <= j < |Fresh(p, k, r)| :: Header(mid, Fresh(p, k, r)[j], AddrThen(Fresh(p, k, r), j + 1, 0))
    requires |bs| == 0 ==> w2 == mid
    requires |bs| > 0 ==> bs[|bs| - 1].at + 2 < |mid| && w2 == mid[bs[|bs| - 1].at + 2 := p * PAGE * 4]
    ensures Linked(w2, if |bs| > 0 then head else p * PAGE * 4, bs + Fresh(p, k, r))
  {
    hide Partition, Header, Fresh, PageRun, Apart, SameOutside;
    var t := Fresh(p, k, r);
    FreshFirst(p, k, r);
    if |bs| > 0 {
      var last := bs[|bs| - 1];
      assert Header(w1, last, Addr(bs, |bs|));
      MidHeader(w1, mid, bs, |bs| - 1, p, k, pages);
      RelinkLast(mid, w2, last, p * PAGE * 4);
      forall j | 0 <= j < |bs| - 1 ensures Header(w2, bs[j], Addr(bs, j + 1)) {
        assert Header(w1, bs[j], Addr(bs, j + 1));
        MidHeader(w1, mid, bs, j, p, k, pages);
        ApartAt(bs, |bs| - 1, j, pages);
        HeaderSameBut(mid, w2, last, bs[j], Addr(bs, j + 1));
      }
      forall j | 0 <= j < |t| ensures Header(w2, t[j], Addr(t, j + 1)) {
        FreshInside(p, k, r, j);
        LastOutside(bs, p, k, pages);
        HeaderOver(mid, w2, t[j], Addr(t, j + 1));
      }
    }
    AppendLinked(w1, w2, head, bs, t);
  }

  lemma LastOutside(bs: seq<Blk>, p: nat, k: nat, pages: set<nat>)
    requires Partition(bs, pages) && |bs| > 0 && k > 0 && PageRun(p, k) !! pages
    ensures bs[|bs| - 1].at + 2 < p * PAGE || (p + k) * PAGE <= bs[|bs| - 1].at + 2
  {
    hide Partition, PageRun;
    BigApart(bs, |bs| - 1, p, k, pages);
  }

  lemma FreshFirst(p: nat, k: nat, r: nat)
    requires k > 0
    ensures |Fresh(p, k, r)| > 0 && Fresh(p, k, r)[0].at == p * PAGE
  {
  }

  lemma MidHeader(w1: seq<Word>, mid: seq<Word>, bs: seq<Blk>, j: nat, p: nat, k: nat, pages: set<nat>)
    requires Partition(bs, pages) && k > 0 && PageRun(p, k) !! pages && j < |bs|
    requires SameOutside(w1, mid, Blk(p * PAGE, k * 4096 - 12, true, 0)) && Header(w1, bs[j], Addr(bs, j + 1))
    ensures Header(mid, bs[j], Addr(bs, j + 1))
  {
    hide Partition, Header, PageRun, Apart, SameOutside;
    var big := Blk(p * PAGE, k * 4096 - 12, true, 0);
    BigApart(bs, j, p, k, pages);
    ApartSym(bs[j], big);
    HeaderSame(w1, mid, big, bs[j], Addr(bs, j + 1));
  }

  /** ... and no payload in use and no page outside the heap was touched. */
  lemma AppendKept(w1: seq<Word>, mid: seq<Word>, w2: seq<Word>, bs: seq<Blk>, p: nat, k: nat, pages: set<nat>)
    requires Partition(bs, pages) && k > 0 && PageRun(p, k) !! pages
    requires SameOutside(w1, mid, Blk(p * PAGE, k * 4096 - 12, true, 0))
    requires if |bs| == 0 then w2 == mid else SameBut(mid, w2, bs[|bs| - 1].at)
    ensures Kept(w1, w2, Live(bs), pages + PageRun(p, k))
  {
    hide Partition, PageRun, Live, Apart;
    var big := Blk(p * PAGE, k * 4096 - 12, true, 0);
    if |bs| > 0 {
      HeaderKept(mid, w2, bs, |bs| - 1, pages);
    }
    forall b, w: nat | b in Live(bs) && InPayload(b, w) && w < |w1| ensures w1[w] == w2[w] {
      var j := LiveIn(bs, b);
      BigApart(bs, j, p, k, pages);
      NotInBoth(b, big, w);
    }
    forall w | 0 <= w < |w1| && w / PAGE !in pages + PageRun(p, k) ensures w1[w] == w2[w] {
      FreshWords(p, k, w);
    }
  }

  lemma NotInBoth(b: Blk, c: Blk, w: nat)
    requires Apart(b, c) && InPayload(b, w)
    ensures !InBlk(c, w)
  {
  }

  lemma FitHere(bs: seq<Blk>, size: nat, i: nat)
    requires i < |bs| && bs[i].free && bs[i].size >= size
    ensures FirstFit(bs, size, i) == i
  {
  }

  lemma FitEnd(bs: seq<Blk>, size: nat, i: nat, pages: set<nat>, n: nat)
    requires Laid(bs, pages, n) && i <= |bs| && Addr(bs, i) == 0
    ensures i == |bs| && FirstFit(bs, size, i) == i
  {
    if i < |bs| {
      Inside(bs, i, pages, n);
    }
  }
}
