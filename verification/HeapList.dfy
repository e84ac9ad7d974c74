/**
 The kernel heap as a list of blocks: first fit, splitting, freeing with one coalescing pass.
 Addresses count 32-bit words; sizes count bytes, as in the block headers.
 */
module HeapList {
  import opened Arith

  /** A block: its header takes 3 words at `at`, its payload `size` bytes behind it; req is what was asked for. */
  datatype Blk = Blk(at: nat, size: nat, free: bool, req: nat)

  const PAGE: nat := 1024

  function End(b: Blk): nat {
    b.at + 3 + b.size / 4
  }

  predicate InBlk(b: Blk, w: nat) {
    b.at <= w < End(b)
  }

  predicate InPayload(b: Blk, w: nat) {
    b.at + 3 <= w < End(b)
  }

  predicate Apart(a: Blk, b: Blk) {
    End(a) <= b.at || End(b) <= a.at
  }

  /** Sizes are whole words; a block in use is at most 28 bytes larger than its request. */
  predicate BlkOk(b: Blk) {
    b.at > 0 && b.size % 4 == 0 && (!b.free ==> b.req <= b.size <= b.req + 28)
  }

  predicate Disjoint(bs: seq<Blk>) {
    forall i, j | 0 <= i < j < |bs| :: Apart(bs[i], bs[j])
  }

  ghost predicate Covered(bs: seq<Blk>, w: nat) {
    exists i :: 0 <= i < |bs| && InBlk(bs[i], w)
  }

  /** The blocks' extents are exactly the words of the pages the heap has claimed. */
  ghost predicate Partition(bs: seq<Blk>, pages: set<nat>) {
    && Disjoint(bs)
    && forall w: nat :: Covered(bs, w) <==> w / PAGE in pages
  }

  function Sum(bs: seq<Blk>): nat {
    if bs == [] then 0 else Sum(bs[..|bs| - 1]) + bs[|bs| - 1].size + 12
  }

  /** Two list neighbours that a coalescing pass would merge. */
  predicate Mergeable(a: Blk, b: Blk) {
    a.free && b.free && End(a) == b.at
  }

  predicate Coalesced(bs: seq<Blk>) {
    forall i | 0 <= i < |bs| - 1 :: !Mergeable(bs[i], bs[i + 1])
  }

  /** What holds in every state kmalloc and kfree can reach. */
  ghost predicate HeapOk(bs: seq<Blk>, pages: set<nat>) {
    && (forall i | 0 <= i < |bs| :: BlkOk(bs[i]))
    && Partition(bs, pages)
    && Sum(bs) == 4096 * |pages|
    && Coalesced(bs)
  }

  lemma {:induction false} SumConcat(a: seq<Blk>, b: seq<Blk>)
    ensures Sum(a + b) == Sum(a) + Sum(b)
  {
    if b == [] {
      assert a + b == a;
    } else {
      assert (a + b)[..|a + b| - 1] == a + b[..|b| - 1];
      SumConcat(a, b[..|b| - 1]);
    }
  }

  // ----- taking a block -----

  /** Position of the first free block that is large enough, or |bs|. */
  function FirstFit(bs: seq<Blk>, size: nat, from: nat): (i: nat)
    requires from <= |bs|
    ensures from <= i <= |bs| && (i < |bs| ==> bs[i].free && bs[i].size >= size)
    decreases |bs| - from
  {
    if from == |bs| || (bs[from].free && bs[from].size >= size) then from else FirstFit(bs, size, from + 1)
  }

  /** One block, taken for a request: the remainder is split off when it can hold a header and more than 16 bytes. */
  function Take(b: Blk, size: nat): (r: seq<Blk>)
  {
    if b.size > size + 28 then
      [Blk(b.at, size, false, size), Blk(b.at + 3 + size / 4, b.size - size - 12, true, 0)]
    else
      [b.(free := false, req := size)]
  }

  /** A block is split exactly if more than 28 bytes are left over; its two parts and one header make it up. */
  lemma TakeSplitsIff(b: Blk, size: nat)
    requires size <= b.size
    ensures |Take(b, size)| == 2 <==> b.size - size > 28
    ensures |Take(b, size)| == 1 ==> Take(b, size)[0].size == b.size
    ensures |Take(b, size)| == 2 ==> Take(b, size)[0].size == size && size + 12 + Take(b, size)[1].size == b.size && Take(b, size)[1].free
    ensures |Take(b, size)| in {1, 2} && !Take(b, size)[0].free
  {
  }

  function TakeAt(bs: seq<Blk>, i: nat, size: nat): seq<Blk>
    requires i < |bs|
  {
    bs[..i] + Take(bs[i], size) + bs[i + 1..]
  }

  /** The same words, in one block or in two. */
  lemma TakeBlk(b: Blk, size: nat)
    requires b.at > 0 && b.size % 4 == 0 && size % 4 == 0 && b.size >= size
    ensures var t := Take(b, size);
      && (forall i | 0 <= i < |t| :: BlkOk(t[i])) && Sum(t) == b.size + 12 && |t| <= 2
      && (forall w: nat :: InBlk(b, w) <==> Covered(t, w))
      && (|t| == 2 ==> End(t[0]) == t[1].at && End(t[1]) == End(b) && b.at < t[1].at)
      && !t[0].free && t[0].at == b.at && End(t[0]) <= End(b)
  {
    var t := Take(b, size);
    forall w: nat ensures InBlk(b, w) <==> Covered(t, w) {
      if InBlk(b, w) {
        assert InBlk(t[0], w) || InBlk(t[|t| - 1], w);
      }
    }
    if |t| == 2 {
      assert t == [t[0]] + [t[1]] && t[..1] == [t[0]];
      assert Sum([t[0]]) == t[0].size + 12 by { assert [t[0]][..0] == []; }
    } else {
      assert t[..0] == [];
    }
  }

  lemma CoveredSplit(a: seq<Blk>, b: seq<Blk>, c: seq<Blk>, w: nat)
    ensures Covered(a + b + c, w) <==> Covered(a, w) || Covered(b, w) || Covered(c, w)
  {
    var r := a + b + c;
    if Covered(a, w) {
      var i :| 0 <= i < |a| && InBlk(a[i], w);
      assert InBlk(r[i], w);
    }
    if Covered(b, w) {
      var i :| 0 <= i < |b| && InBlk(b[i], w);
      assert InBlk(r[|a| + i], w);
    }
    if Covered(c, w) {
      var i :| 0 <= i < |c| && InBlk(c[i], w);
      assert InBlk(r[|a| + |b| + i], w);
    }
  }

  lemma ReplaceDisjoint(bs: seq<Blk>, i: nat, t: seq<Blk>)
    requires i < |bs| && Disjoint(bs) && Disjoint(t)
    requires forall k | 0 <= k < |t| :: bs[i].at <= t[k].at && End(t[k]) <= End(bs[i])
    ensures Disjoint(bs[..i] + t + bs[i + 1..])
  {
    hide End;
    var r := bs[..i] + t + bs[i + 1..];
    forall x, y | 0 <= x < y < |r| ensures Apart(r[x], r[y]) {
      var ox := if x < i then x else if x < i + |t| then i else x - |t| + 1;
      var oy := if y < i then y else if y < i + |t| then i else y - |t| + 1;
      assert ox < oy ==> Apart(bs[ox], bs[oy]);
      if ox == oy {
        assert r[x] == t[x - i] && r[y] == t[y - i];
      }
    }
  }

  lemma ReplaceCovered(bs: seq<Blk>, i: nat, t: seq<Blk>, w: nat)
    requires i < |bs| && (InBlk(bs[i], w) <==> Covered(t, w))
    ensures Covered(bs[..i] + t + bs[i + 1..], w) <==> Covered(bs, w)
  {
    hide InBlk;
    CoveredSplit(bs[..i], t, bs[i + 1..], w);
    CoveredSplit(bs[..i], [bs[i]], bs[i + 1..], w);
    assert bs == bs[..i] + [bs[i]] + bs[i + 1..];
    assert InBlk([bs[i]][0], w) <==> InBlk(bs[i], w);
  }

  lemma SumOne(b: Blk)
    ensures Sum([b]) == b.size + 12
  {
    assert [b][..0] == [];
  }

  lemma ReplaceSum(bs: seq<Blk>, i: nat, t: seq<Blk>)
    requires i < |bs|
    ensures Sum(bs[..i] + t + bs[i + 1..]) == Sum(bs) - (bs[i].size + 12) + Sum(t)
  {
    hide Sum;
    SumConcat(bs[..i] + t, bs[i + 1..]);
    SumConcat(bs[..i], t);
    SumConcat(bs[..i] + [bs[i]], bs[i + 1..]);
    SumConcat(bs[..i], [bs[i]]);
    assert bs == bs[..i] + [bs[i]] + bs[i + 1..];
    SumOne(bs[i]);
  }

  /** Replacing block i by blocks over the same words keeps the partition and the total. */
  lemma ReplaceBlk(bs: seq<Blk>, i: nat, t: seq<Blk>, pages: set<nat>)
    requires i < |bs| && Partition(bs, pages) && Disjoint(t) && Sum(t) == bs[i].size + 12
    requires forall w: nat :: InBlk(bs[i], w) <==> Covered(t, w)
    requires forall k | 0 <= k < |t| :: bs[i].at <= t[k].at && End(t[k]) <= End(bs[i])
    ensures Partition(bs[..i] + t + bs[i + 1..], pages)
    ensures Sum(bs[..i] + t + bs[i + 1..]) == Sum(bs)
  {
    hide Sum, Covered, Disjoint, End, InBlk;
    forall w: nat ensures Covered(bs[..i] + t + bs[i + 1..], w) <==> Covered(bs, w) {
      ReplaceCovered(bs, i, t, w);
    }
    ReplaceDisjoint(bs, i, t);
    ReplaceSum(bs, i, t);
  }

  /** Taking a free block keeps the heap well formed, the other blocks, and full coalescing. */
  lemma TakeKeeps(bs: seq<Blk>, i: nat, size: nat, pages: set<nat>)
    requires HeapOk(bs, pages) && i < |bs| && bs[i].free && bs[i].size >= size && size % 4 == 0
    ensures HeapOk(TakeAt(bs, i, size), pages)
  {
    hide Sum, Covered, Take, Partition;
    var t := Take(bs[i], size);
    TakeBlk(bs[i], size);
    ReplaceBlk(bs, i, t, pages);
    TakeCoalesced(bs, i, size);
    var r := TakeAt(bs, i, size);
    forall k | 0 <= k < |r| ensures BlkOk(r[k]) {
      assert r[k] == if k < i then bs[k] else if k < i + |t| then t[k - i] else bs[k - |t| + 1];
    }
  }

  lemma TakeCoalesced(bs: seq<Blk>, i: nat, size: nat)
    requires Coalesced(bs) && i < |bs| && bs[i].free && size % 4 == 0 && bs[i].size % 4 == 0
    ensures Coalesced(TakeAt(bs, i, size))
  {
    var t := Take(bs[i], size);
    var r := TakeAt(bs, i, size);
    forall k | 0 <= k < |r| - 1 ensures !Mergeable(r[k], r[k + 1]) {
      if k + 1 < i {
        assert r[k] == bs[k] && r[k + 1] == bs[k + 1];
      } else if k >= i + |t| {
        assert r[k] == bs[k - |t| + 1] && r[k + 1] == bs[k - |t| + 2];
      } else if k == i + |t| - 1 && |t| == 2 {
        assert r[k] == t[1] && r[k + 1] == bs[i + 1] && !Mergeable(bs[i], bs[i + 1]);
      }
    }
  }

  // ----- claiming new pages -----

  /** n pages from page p on, as one block that is then taken for the request. */
  function Fresh(p: nat, n: nat, size: nat): seq<Blk>
    requires n > 0
  {
    Take(Blk(p * PAGE, n * 4096 - 12, true, 0), size)
  }

  function PageRun(p: nat, n: nat): set<nat> {
    if n == 0 then {} else PageRun(p, n - 1) + {p + n - 1}
  }

  lemma {:induction false} PagesIn(p: nat, n: nat, q: nat)
    ensures q in PageRun(p, n) <==> p <= q < p + n
  {
    if n > 0 {
      PagesIn(p, n - 1, q);
    }
  }

  lemma {:induction false} PagesCount(p: nat, n: nat)
    ensures |PageRun(p, n)| == n
  {
    if n > 0 {
      PagesCount(p, n - 1);
      PagesIn(p, n - 1, p + n - 1);
    }
  }

  /** The words of the new block are exactly the words of the new pages. */
  lemma FreshWords(p: nat, n: nat, w: nat)
    requires n > 0
    ensures InBlk(Blk(p * PAGE, n * 4096 - 12, true, 0), w) <==> w / PAGE in PageRun(p, n)
  {
    hide PageRun;
    PagesIn(p, n, w / PAGE);
  }

  /** Appending the taken block of freshly claimed pages. */
  lemma FreshKeeps(bs: seq<Blk>, p: nat, n: nat, size: nat, pages: set<nat>)
    requires HeapOk(bs, pages) && p > 0 && n > 0 && size % 4 == 0 && size + 12 <= n * 4096
    requires PageRun(p, n) !! pages
    ensures HeapOk(bs + Fresh(p, n, size), pages + PageRun(p, n))
  {
    hide Sum, Covered, Take, InBlk, PageRun;
    var big := Blk(p * PAGE, n * 4096 - 12, true, 0);
    var t := Fresh(p, n, size);
    var r := bs + t;
    TakeBlk(big, size);
    forall w: nat ensures Covered(r, w) <==> w / PAGE in pages + PageRun(p, n) {
      CoveredSplit(bs, t, [], w);
      assert bs + t + [] == r && !Covered([], w) by { NoneCovered(w); }
      FreshWords(p, n, w);
    }
    FreshDisjoint(bs, p, n, size, pages);
    SumConcat(bs, t);
    PagesCount(p, n);
    FreshCoalesced(bs, p, n, size);
    forall k | 0 <= k < |r| ensures BlkOk(r[k]) {
      assert r[k] == if k < |bs| then bs[k] else t[k - |bs|];
    }
  }

  lemma NoneCovered(w: nat)
    ensures !Covered([], w)
  {
  }

  lemma FreshDisjoint(bs: seq<Blk>, p: nat, n: nat, size: nat, pages: set<nat>)
    requires Partition(bs, pages) && n > 0 && size % 4 == 0 && size + 12 <= n * 4096 && p > 0 && PageRun(p, n) !! pages
    ensures Disjoint(bs + Fresh(p, n, size))
  {
    hide Take, Covered, End, PageRun;
    var big := Blk(p * PAGE, n * 4096 - 12, true, 0);
    var t := Fresh(p, n, size);
    var r := bs + t;
    TakeBlk(big, size);
    forall i | 0 <= i < |bs| ensures Apart(bs[i], big) {
      BlockApart(bs, i, p, n, pages);
    }
    forall x, y | 0 <= x < y < |r| ensures Apart(r[x], r[y]) {
      if y < |bs| {
        assert Apart(bs[x], bs[y]);
      } else if x < |bs| {
        assert Apart(bs[x], big) && r[y] == t[y - |bs|];
        assert big.at <= r[y].at && End(r[y]) <= End(big);
      }
    }
  }

  /** A heap block shares no word with pages the heap did not have. */
  lemma BlockApart(bs: seq<Blk>, i: nat, p: nat, n: nat, pages: set<nat>)
    requires Partition(bs, pages) && i < |bs| && n > 0 && PageRun(p, n) !! pages
    ensures Apart(bs[i], Blk(p * PAGE, n * 4096 - 12, true, 0))
  {
    var b := bs[i];
    assert InBlk(b, b.at);
    assert Covered(bs, b.at);
    if p * PAGE <= b.at < p * PAGE + n * PAGE {
      FreshWords(p, n, b.at);
    } else if b.at < p * PAGE < End(b) {
      assert InBlk(b, p * PAGE) && Covered(bs, p * PAGE);
      FreshWords(p, n, p * PAGE);
    }
  }

  lemma FreshCoalesced(bs: seq<Blk>, p: nat, n: nat, size: nat)
    requires Coalesced(bs) && n > 0
    ensures Coalesced(bs + Fresh(p, n, size))
  {
    var r := bs + Fresh(p, n, size);
    forall k | 0 <= k < |r| - 1 ensures !Mergeable(r[k], r[k + 1]) {
      if k + 1 < |bs| {
        assert !Mergeable(bs[k], bs[k + 1]);
      }
    }
  }

  // ----- freeing -----

  function Merge(a: Blk, b: Blk): Blk {
    a.(size := a.size + 12 + b.size)
  }

  /** The coalescing pass from position i on: merge with the next block as long as possible, then move on. */
  function Coalesce(bs: seq<Blk>, i: nat): seq<Blk>
    decreases |bs|, |bs| - i
  {
    if i + 1 >= |bs| then bs
    else if Mergeable(bs[i], bs[i + 1]) then Coalesce(bs[..i] + [Merge(bs[i], bs[i + 1])] + bs[i + 2..], i)
    else Coalesce(bs, i + 1)
  }

  lemma MergeBlk(a: Blk, b: Blk)
    requires BlkOk(a) && BlkOk(b) && Mergeable(a, b)
    ensures var m := Merge(a, b);
      && BlkOk(m) && m.free && m.at == a.at && End(m) == End(b) && m.size + 12 == a.size + 12 + (b.size + 12)
      && forall w: nat :: InBlk(m, w) <==> InBlk(a, w) || InBlk(b, w)
  {
  }

  lemma MergePartition(bs: seq<Blk>, i: nat, pages: set<nat>)
    requires Partition(bs, pages) && i + 1 < |bs| && BlkOk(bs[i]) && BlkOk(bs[i + 1]) && Mergeable(bs[i], bs[i + 1])
    ensures Partition(bs[..i] + [Merge(bs[i], bs[i + 1])] + bs[i + 2..], pages)
    ensures Sum(bs[..i] + [Merge(bs[i], bs[i + 1])] + bs[i + 2..]) == Sum(bs)
  {
    hide Sum, Covered, Merge, InBlk, Mergeable;
    var m, two := Merge(bs[i], bs[i + 1]), [bs[i], bs[i + 1]];
    var r := bs[..i] + [m] + bs[i + 2..];
    MergeBlk(bs[i], bs[i + 1]);
    assert bs == bs[..i] + two + bs[i + 2..];
    forall w: nat ensures Covered(r, w) <==> Covered(bs, w) {
      CoveredSplit(bs[..i], [m], bs[i + 2..], w);
      CoveredSplit(bs[..i], two, bs[i + 2..], w);
      CoveredTwo(bs[i], bs[i + 1], m, w);
    }
    MergeDisjoint(bs, i);
    SumConcat(bs[..i] + [m], bs[i + 2..]);
    SumConcat(bs[..i], [m]);
    SumConcat(bs[..i] + two, bs[i + 2..]);
    SumConcat(bs[..i], two);
    SumConcat([bs[i]], [bs[i + 1]]);
    SumOne(bs[i]);
    SumOne(bs[i + 1]);
    SumOne(m);
    assert two == [bs[i]] + [bs[i + 1]];
  }

  lemma CoveredTwo(a: Blk, b: Blk, m: Blk, w: nat)
    ensures Covered([a, b], w) <==> InBlk(a, w) || InBlk(b, w)
    ensures Covered([m], w) <==> InBlk(m, w)
  {
    hide InBlk;
    assert [a, b][0] == a && [a, b][1] == b && [m][0] == m;
  }

  lemma MergeDisjoint(bs: seq<Blk>, i: nat)
    requires Disjoint(bs) && i + 1 < |bs| && BlkOk(bs[i]) && BlkOk(bs[i + 1]) && Mergeable(bs[i], bs[i + 1])
    ensures Disjoint(bs[..i] + [Merge(bs[i], bs[i + 1])] + bs[i + 2..])
  {
    hide End, Merge;
    MergeBlk(bs[i], bs[i + 1]);
    var m := Merge(bs[i], bs[i + 1]);
    var r := bs[..i] + [m] + bs[i + 2..];
    forall x, y | 0 <= x < y < |r| ensures Apart(r[x], r[y]) {
      if y < i {
        assert Apart(bs[x], bs[y]);
      } else if y == i {
        assert Apart(bs[x], bs[i]) && Apart(bs[x], bs[i + 1]);
        EndAfter(bs[x]);
        EndAfter(bs[i]);
      } else if x == i {
        assert Apart(bs[i], bs[y + 1]) && Apart(bs[i + 1], bs[y + 1]);
        EndAfter(bs[y + 1]);
        EndAfter(bs[i]);
      } else if x < i {
        assert Apart(bs[x], bs[y + 1]);
      } else {
        assert Apart(bs[x + 1], bs[y + 1]);
      }
    }
  }

  lemma EndAfter(b: Blk)
    ensures b.at < End(b)
  {
  }

  /** The blocks in use, in list order. */
  function Live(bs: seq<Blk>): seq<Blk> {
    if bs == [] then [] else (if bs[0].free then [] else [bs[0]]) + Live(bs[1..])
  }

  lemma {:induction false} LiveConcat(a: seq<Blk>, b: seq<Blk>)
    ensures Live(a + b) == Live(a) + Live(b)
  {
    if a == [] {
      assert a + b == b;
    } else {
      assert (a + b)[1..] == a[1..] + b;
      LiveConcat(a[1..], b);
    }
  }

  lemma LiveMerge(bs: seq<Blk>, i: nat)
    requires i + 1 < |bs| && bs[i].free && bs[i + 1].free
    ensures Live(bs[..i] + [Merge(bs[i], bs[i + 1])] + bs[i + 2..]) == Live(bs)
  {
    var m, two := Merge(bs[i], bs[i + 1]), [bs[i], bs[i + 1]];
    assert bs == bs[..i] + two + bs[i + 2..];
    LiveConcat(bs[..i] + [m], bs[i + 2..]);
    LiveConcat(bs[..i], [m]);
    LiveConcat(bs[..i] + two, bs[i + 2..]);
    LiveConcat(bs[..i], two);
    assert [m][1..] == [] && two[1..] == [bs[i + 1]] && [bs[i + 1]][1..] == [];
  }

  /** No two neighbours among the first n + 1 blocks can be merged. */
  predicate CoalescedTo(bs: seq<Blk>, n: nat) {
    forall k | 0 <= k < n && k + 1 < |bs| :: !Mergeable(bs[k], bs[k + 1])
  }

  /**
   One pass over any well-formed list leaves no mergeable neighbours, keeps the partition and the
   total, and does not touch a block in use.
   */
  lemma {:induction false} CoalesceKeeps(bs: seq<Blk>, i: nat, pages: set<nat>)
    requires (forall k | 0 <= k < |bs| :: BlkOk(bs[k])) && Partition(bs, pages) && CoalescedTo(bs, i)
    ensures var r := Coalesce(bs, i);
      && (forall k | 0 <= k < |r| :: BlkOk(r[k])) && Partition(r, pages) && Sum(r) == Sum(bs)
      && Coalesced(r) && Live(r) == Live(bs)
    decreases |bs|, |bs| - i
  {
    hide Partition, Sum, Merge, Live, BlkOk;
    if i + 1 >= |bs| {
    } else if Mergeable(bs[i], bs[i + 1]) {
      var m := Merge(bs[i], bs[i + 1]);
      var r := bs[..i] + [m] + bs[i + 2..];
      MergeBlk(bs[i], bs[i + 1]);
      MergePartition(bs, i, pages);
      LiveMerge(bs, i);
      forall k | 0 <= k < |r| ensures BlkOk(r[k]) {
        assert r[k] == if k < i then bs[k] else if k == i then m else bs[k + 1];
      }
      forall k | 0 <= k < i && k + 1 < |r| ensures !Mergeable(r[k], r[k + 1]) {
        assert !Mergeable(bs[k], bs[k + 1]);
      }
      CoalesceKeeps(r, i, pages);
    } else {
      CoalesceKeeps(bs, i + 1, pages);
    }
  }

  /** kfree of block i: mark it, then one pass from the head. */
  function FreeAt(bs: seq<Blk>, i: nat): seq<Blk>
    requires i < |bs|
  {
    Coalesce(bs[i := bs[i].(free := true)], 0)
  }

  lemma MarkPartition(bs: seq<Blk>, i: nat, b: Blk, pages: set<nat>)
    requires Partition(bs, pages) && i < |bs| && b.at == bs[i].at && b.size == bs[i].size
    ensures Partition(bs[i := b], pages) && Sum(bs[i := b]) == Sum(bs)
  {
    hide Sum, Covered, InBlk;
    var r := bs[i := b];
    assert r == bs[..i] + [b] + bs[i + 1..];
    ReplaceSum(bs, i, [b]);
    SumOne(b);
    forall w: nat ensures Covered(r, w) <==> Covered(bs, w) {
      CoveredTwo(b, b, b, w);
      SameWords(bs[i], b, w);
      ReplaceCovered(bs, i, [b], w);
    }
    forall x, y | 0 <= x < y < |r| ensures Apart(r[x], r[y]) {
      assert Apart(bs[x], bs[y]);
    }
  }

  lemma SameWords(a: Blk, b: Blk, w: nat)
    requires a.at == b.at && a.size == b.size
    ensures InBlk(a, w) <==> InBlk(b, w)
  {
  }

  lemma LiveOne(b: Blk)
    ensures Live([b]) == if b.free then [] else [b]
  {
    assert [b][1..] == [];
  }

  lemma LiveAround(bs: seq<Blk>, i: nat)
    requires i < |bs|
    ensures Live(bs) == Live(bs[..i]) + Live([bs[i]]) + Live(bs[i + 1..])
  {
    hide *;
    var a, b, c := bs[..i], [bs[i]], bs[i + 1..];
    Cut(bs, i);
    LiveConcat(a + b, c);
    LiveConcat(a, b);
  }

  lemma Cut(bs: seq<Blk>, i: nat)
    requires i < |bs|
    ensures bs == bs[..i] + [bs[i]] + bs[i + 1..]
  {
  }

  /** Freeing a block in use: exactly that block leaves the list of blocks in use. */
  lemma FreeKeeps(bs: seq<Blk>, i: nat, pages: set<nat>)
    requires HeapOk(bs, pages) && i < |bs| && !bs[i].free
    ensures HeapOk(FreeAt(bs, i), pages)
    ensures Live(bs) == Live(bs[..i]) + [bs[i]] + Live(bs[i + 1..])
    ensures Live(FreeAt(bs, i)) == Live(bs[..i]) + Live(bs[i + 1..])
  {
    hide Sum, Partition, Coalesce, Live;
    var b := bs[i].(free := true);
    var r := bs[i := b];
    MarkPartition(bs, i, b, pages);
    CoalesceKeeps(r, 0, pages);
    LiveAround(bs, i);
    LiveAround(r, i);
    LiveOne(b);
    LiveOne(bs[i]);
    assert r[..i] == bs[..i] && r[i + 1..] == bs[i + 1..];
  }
}
