/**
 The heap's linked list in memory: each block header holds the size, the free flag and the address
 of the next header. What the single writes of kmalloc and kfree do to it, and what they leave alone.
 */
module HeapLinks {
  import opened Pages
  import opened HeapList

  /** Byte address of block i of the list, or what follows the list. */
  function AddrThen(bs: seq<Blk>, i: nat, next: nat): nat {
    if i < |bs| then bs[i].at * 4 else next
  }

  function Addr(bs: seq<Blk>, i: nat): nat {
    AddrThen(bs, i, 0)
  }

  predicate Header(words: seq<Word>, b: Blk, next: nat) {
    && b.at + 3 <= |words|
    && words[b.at] as nat == b.size
    && words[b.at + 1] == (if b.free then 1 else 0)
    && words[b.at + 2] as nat == next
  }

  predicate Linked(words: seq<Word>, head: nat, bs: seq<Blk>) {
    head == Addr(bs, 0) && forall i | 0 <= i < |bs| :: Header(words, bs[i], Addr(bs, i + 1))
  }

  /** Blocks that lie in the claimed pages of n pages of memory. */
  ghost predicate Laid(bs: seq<Blk>, pages: set<nat>, n: nat) {
    && (forall i | 0 <= i < |bs| :: BlkOk(bs[i]))
    && Partition(bs, pages)
    && n <= MAXPAGES && forall p | p in pages :: p < n
  }

  lemma Inside(bs: seq<Blk>, i: nat, pages: set<nat>, n: nat)
    requires Laid(bs, pages, n) && i < |bs|
    ensures bs[i].at > 0 && bs[i].size % 4 == 0 && End(bs[i]) <= n * WORDS
    ensures End(bs[i]) * 4 < 0x1_0000_0000 && bs[i].size < 0x1_0000_0000
  {
    hide Disjoint;
    var w := End(bs[i]) - 1;
    assert InBlk(bs[i], w);
    assert Covered(bs, w);
    assert w / PAGE in pages;
  }

  /** Two memories agree on every word outside block b. */
  predicate SameOutside(w1: seq<Word>, w2: seq<Word>, b: Blk) {
    |w1| == |w2| && forall w | 0 <= w < |w1| && !InBlk(b, w) :: w1[w] == w2[w]
  }

  /** ... and outside its header. */
  predicate SameBut(w1: seq<Word>, w2: seq<Word>, a: nat) {
    |w1| == |w2| && forall w | 0 <= w < |w1| && !(a <= w < a + 3) :: w1[w] == w2[w]
  }

  /** No word of the payload of a block in use, and no word outside the heap's pages, differs. */
  ghost predicate Kept(w1: seq<Word>, w2: seq<Word>, live: seq<Blk>, pages: set<nat>) {
    && |w1| == |w2|
    && (forall b, w: nat | b in live && InPayload(b, w) && w < |w1| :: w1[w] == w2[w])
    && (forall w | 0 <= w < |w1| && w / PAGE !in pages :: w1[w] == w2[w])
  }

  lemma KeptTrans(w1: seq<Word>, w2: seq<Word>, w3: seq<Word>, live: seq<Blk>, pages: set<nat>)
    requires Kept(w1, w2, live, pages) && Kept(w2, w3, live, pages)
    ensures Kept(w1, w3, live, pages)
  {
    hide InPayload;
  }

  lemma {:induction false} LiveIn(bs: seq<Blk>, b: Blk) returns (i: nat)
    requires b in Live(bs)
    ensures i < |bs| && bs[i] == b && !b.free
  {
    if !bs[0].free && b == bs[0] {
      i := 0;
    } else {
      i := LiveIn(bs[1..], b);
      i := i + 1;
    }
  }

  lemma InPages(bs: seq<Blk>, i: nat, pages: set<nat>, w: nat)
    requires Partition(bs, pages) && i < |bs| && InBlk(bs[i], w)
    ensures w / PAGE in pages
  {
    hide InBlk, Disjoint;
    assert Covered(bs, w);
  }

  /** A write to a header, or anywhere in a free block, is to no payload in use. */
  lemma HeaderKept(w1: seq<Word>, w2: seq<Word>, bs: seq<Blk>, i: nat, pages: set<nat>)
    requires Partition(bs, pages) && i < |bs| && SameBut(w1, w2, bs[i].at)
    ensures Kept(w1, w2, Live(bs), pages)
  {
    hide Live, Partition;
    forall b, w: nat | b in Live(bs) && InPayload(b, w) && w < |w1| ensures w1[w] == w2[w] {
      var j := LiveIn(bs, b);
      ApartAt(bs, i, j, pages);
    }
    forall w | 0 <= w < |w1| && w / PAGE !in pages ensures w1[w] == w2[w] {
      if InBlk(bs[i], w) {
        InPages(bs, i, pages, w);
      }
    }
  }

  lemma ApartAt(bs: seq<Blk>, i: nat, j: nat, pages: set<nat>)
    requires Partition(bs, pages) && i < |bs| && j < |bs|
    ensures i != j ==> Apart(bs[i], bs[j])
  {
    hide Apart, Covered;
    if i < j {
      assert Apart(bs[i], bs[j]);
    } else if j < i {
      assert Apart(bs[j], bs[i]);
      ApartSym(bs[i], bs[j]);
    }
  }

  lemma ApartSym(a: Blk, b: Blk)
    ensures Apart(a, b) <==> Apart(b, a)
  {
  }

  lemma FreeKept(w1: seq<Word>, w2: seq<Word>, bs: seq<Blk>, i: nat, pages: set<nat>)
    requires Partition(bs, pages) && i < |bs| && bs[i].free && SameOutside(w1, w2, bs[i])
    ensures Kept(w1, w2, Live(bs), pages)
  {
    hide Live, Partition;
    forall b, w: nat | b in Live(bs) && InPayload(b, w) && w < |w1| ensures w1[w] == w2[w] {
      var j := LiveIn(bs, b);
      ApartAt(bs, i, j, pages);
    }
    forall w | 0 <= w < |w1| && w / PAGE !in pages ensures w1[w] == w2[w] {
      if InBlk(bs[i], w) {
        InPages(bs, i, pages, w);
      }
    }
  }

  /** Replacing block i in the list by blocks that were given headers in its words. */
  lemma ReplaceLinked(w1: seq<Word>, w2: seq<Word>, head: nat, bs: seq<Blk>, i: nat, t: seq<Blk>, pages: set<nat>)
    requires Partition(bs, pages) && Linked(w1, head, bs) && i < |bs| && |t| > 0 && t[0].at == bs[i].at
    requires SameOutside(w1, w2, bs[i])
    requires forall k | 0 <= k < |t| :: Header(w2, t[k], AddrThen(t, k + 1, Addr(bs, i + 1)))
    ensures Linked(w2, head, bs[..i] + t + bs[i + 1..])
  {
    hide Partition, Header;
    var r := bs[..i] + t + bs[i + 1..];
    forall k | 0 <= k < |r| ensures Header(w2, r[k], Addr(r, k + 1)) {
      if k < i {
        assert r[k] == bs[k] && Addr(r, k + 1) == Addr(bs, k + 1);
        ApartAt(bs, i, k, pages);
        HeaderSame(w1, w2, bs[i], bs[k], Addr(bs, k + 1));
      } else if k < i + |t| {
        var o := k - i;
        assert r[k] == t[o] && Header(w2, t[o], AddrThen(t, o + 1, Addr(bs, i + 1)));
        if o + 1 < |t| {
          assert r[k + 1] == t[o + 1];
        } else if k + 1 < |r| {
          assert r[k + 1] == bs[i + 1];
        }
      } else {
        var o := k - |t| + 1;
        assert r[k] == bs[o] && Addr(r, k + 1) == Addr(bs, o + 1);
        ApartAt(bs, i, o, pages);
        HeaderSame(w1, w2, bs[i], bs[o], Addr(bs, o + 1));
      }
    }
  }

  lemma HeaderSame(w1: seq<Word>, w2: seq<Word>, b: Blk, c: Blk, next: nat)
    requires SameOutside(w1, w2, b) && Apart(b, c) && Header(w1, c, next)
    ensures Header(w2, c, next)
  {
  }

  /** Merging block i with its successor: new size and next in the header at i. */
  lemma MergeLinked(w1: seq<Word>, w2: seq<Word>, head: nat, bs: seq<Blk>, i: nat, pages: set<nat>)
    requires Partition(bs, pages) && Linked(w1, head, bs) && i + 1 < |bs| && Mergeable(bs[i], bs[i + 1])
    requires SameBut(w1, w2, bs[i].at) && Header(w2, Merge(bs[i], bs[i + 1]), Addr(bs, i + 2))
    ensures Linked(w2, head, bs[..i] + [Merge(bs[i], bs[i + 1])] + bs[i + 2..])
  {
    hide Partition, Header, Merge, Mergeable;
    var m := Merge(bs[i], bs[i + 1]);
    var r := bs[..i] + [m] + bs[i + 2..];
    MergeAddr(bs[i], bs[i + 1]);
    forall k | 0 <= k < |r| ensures Header(w2, r[k], Addr(r, k + 1)) {
      if k < i {
        assert r[k] == bs[k] && Addr(r, k + 1) == Addr(bs, k + 1);
        ApartAt(bs, i, k, pages);
        HeaderSameBut(w1, w2, bs[i], bs[k], Addr(bs, k + 1));
      } else if k > i {
        assert r[k] == bs[k + 1] && Addr(r, k + 1) == Addr(bs, k + 2);
        ApartAt(bs, i, k + 1, pages);
        HeaderSameBut(w1, w2, bs[i], bs[k + 1], Addr(bs, k + 2));
      } else {
        assert r[i] == m && Addr(r, i + 1) == Addr(bs, i + 2);
      }
    }
  }

  lemma MergeAddr(a: Blk, b: Blk)
    ensures Merge(a, b).at == a.at
  {
  }

  lemma HeaderSameBut(w1: seq<Word>, w2: seq<Word>, b: Blk, c: Blk, next: nat)
    requires SameBut(w1, w2, b.at) && Apart(b, c) && Header(w1, c, next)
    ensures Header(w2, c, next)
  {
  }

  /** Changing a flag in block i. */
  lemma MarkLinked(w1: seq<Word>, w2: seq<Word>, head: nat, bs: seq<Blk>, i: nat, b: Blk, pages: set<nat>)
    requires Partition(bs, pages) && Linked(w1, head, bs) && i < |bs| && b.at == bs[i].at
    requires SameBut(w1, w2, b.at) && Header(w2, b, Addr(bs, i + 1))
    ensures Linked(w2, head, bs[i := b])
  {
    hide Partition, Header;
    var r := bs[i := b];
    forall k | 0 <= k < |r| ensures Header(w2, r[k], Addr(r, k + 1)) {
      assert Addr(r, k + 1) == Addr(bs, k + 1);
      if k != i {
        ApartAt(bs, i, k, pages);
        HeaderSameBut(w1, w2, bs[i], bs[k], Addr(bs, k + 1));
      }
    }
  }

  /** Appending blocks that were given headers: the last block, or the head pointer, refers to the first of them. */
  lemma AppendLinked(w1: seq<Word>, w2: seq<Word>, head: nat, bs: seq<Blk>, t: seq<Blk>)
    requires Linked(w1, head, bs) && |t| > 0 && |w2| == |w1|
    requires forall k | 0 <= k < |bs| - 1 :: Header(w2, bs[k], Addr(bs, k + 1))
    requires |bs| > 0 ==> Header(w2, bs[|bs| - 1], t[0].at * 4)
    requires forall k | 0 <= k < |t| :: Header(w2, t[k], Addr(t, k + 1))
    ensures Linked(w2, if |bs| > 0 then head else t[0].at * 4, bs + t)
  {
    hide Header;
    var r := bs + t;
    forall k | 0 <= k < |r| ensures Header(w2, r[k], Addr(r, k + 1)) {
      if k < |bs| {
        assert r[k] == bs[k];
      } else {
        assert r[k] == t[k - |bs|] && Addr(r, k + 1) == Addr(t, k - |bs| + 1);
      }
    }
  }
}
