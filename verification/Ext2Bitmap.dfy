/**
 Allocation bitmaps, and a pool of numbered items spread over the bitmaps of several block
 groups.  Blocks and inodes are both such a pool.
 */
module Ext2Bitmap {
  import opened Arith
  import opened Bits
  import opened Bytes

  type Block = seq<Byte>

  predicate Taken(bm: Block, k: nat)
    requires k < 8 * |bm|
  {
    BitOf(bm[k / 8], k % 8)
  }

  function Mark(bm: Block, k: nat): (r: Block)
    requires k < 8 * |bm|
    ensures |r| == |bm|
  {
    BitWidth(bm[k / 8], k % 8, 8);
    Pow2Values();
    bm[k / 8 := SetBit(bm[k / 8], k % 8)]
  }

  function Unmark(bm: Block, k: nat): (r: Block)
    requires k < 8 * |bm|
    ensures |r| == |bm|
  {
    BitWidth(bm[k / 8], k % 8, 8);
    Pow2Values();
    bm[k / 8 := ClearBit(bm[k / 8], k % 8)]
  }

  lemma TakenMark(bm: Block, k: nat, j: nat)
    requires k < 8 * |bm| && j < 8 * |bm|
    ensures Taken(Mark(bm, k), j) <==> j == k || Taken(bm, j)
    ensures Taken(Unmark(bm, k), j) <==> j != k && Taken(bm, j)
  {
    if k / 8 == j / 8 {
      SetBitOf(bm[k / 8], k % 8, j % 8);
      ClearBitOf(bm[k / 8], k % 8, j % 8);
    }
  }

  /** Marking a clear bit and clearing it again restores every byte. */
  lemma UnmarkMark(bm: Block, k: nat)
    requires k < 8 * |bm| && !Taken(bm, k)
    ensures Unmark(Mark(bm, k), k) == bm
  {
    ClearSet(bm[k / 8], k % 8);
  }

  /** The number of clear bits among the first n. */
  function Zeros(bm: Block, n: nat): (z: nat)
    requires n <= 8 * |bm|
    ensures z <= n
  {
    if n == 0 then 0 else Zeros(bm, n - 1) + if Taken(bm, n - 1) then 0 else 1
  }

  lemma {:induction false} ZerosMark(bm: Block, k: nat, n: nat)
    requires k < 8 * |bm| && n <= 8 * |bm|
    ensures !Taken(bm, k) ==> Zeros(Mark(bm, k), n) == Zeros(bm, n) - if k < n then 1 else 0
    ensures Taken(bm, k) ==> Zeros(Unmark(bm, k), n) == Zeros(bm, n) + if k < n then 1 else 0
    ensures !Taken(bm, k) ==> Zeros(Unmark(bm, k), n) == Zeros(bm, n)
  {
    hide Taken, Mark, Unmark;
    if n > 0 {
      ZerosMark(bm, k, n - 1);
      TakenMark(bm, k, n - 1);
    }
  }

  lemma {:induction false} ZerosNone(bm: Block, n: nat)
    requires n <= 8 * |bm|
    ensures Zeros(bm, n) == 0 <==> forall k | 0 <= k < n :: Taken(bm, k)
  {
    hide Taken;
    if n > 0 {
      ZerosNone(bm, n - 1);
    }
  }

  // ----- pools -----

  function Sum(s: seq<nat>, n: nat): nat
    requires n <= |s|
  {
    if n == 0 then 0 else Sum(s, n - 1) + s[n - 1]
  }

  lemma {:induction false} SumUpdate(s: seq<nat>, n: nat, g: nat, x: nat)
    requires n <= |s| && g < |s|
    ensures Sum(s[g := x], n) == Sum(s, n) + if g < n then x - s[g] else 0
  {
    if n > 0 {
      SumUpdate(s, n - 1, g, x);
    }
  }

  lemma {:induction false} SumZero(s: seq<nat>, n: nat)
    requires n <= |s|
    ensures Sum(s, n) == 0 <==> forall g | 0 <= g < n :: s[g] == 0
  {
    if n > 0 {
      SumZero(s, n - 1);
    }
  }

  /**
   Items first .. first + total - 1, `per` of them to a group: group g has the bitmap maps[g] and
   the free count free[g]; freeTotal is the superblock's count.
   */
  datatype Pool = Pool(first: nat, total: nat, per: nat, maps: seq<Block>, free: seq<nat>, freeTotal: nat) {

    /** How many items group g really has. */
    function Span(g: nat): nat {
      if total <= g * per then 0 else if total - g * per < per then total - g * per else per
    }

    predicate Shape() {
      && per > 0
      && |free| == |maps|
      && total <= |maps| * per
      && forall g | 0 <= g < |maps| :: per <= 8 * |maps[g]|
    }

    /** The counts agree with the bitmaps, and the bits behind a group's last item are set. */
    ghost predicate Valid() {
      && Shape()
      && (forall g | 0 <= g < |maps| :: free[g] == Zeros(maps[g], Span(g)))
      && (forall g, k | 0 <= g < |maps| && 0 < Span(g) <= k < 8 * |maps[g]| :: Taken(maps[g], k))
      && freeTotal == Sum(free, |free|)
    }

    predicate InRange(x: int) {
      first <= x < first + total
    }

    function Group(x: nat): nat
      requires InRange(x) && per > 0
    {
      (x - first) / per
    }

    function Index(x: nat): nat
      requires InRange(x) && per > 0
    {
      (x - first) % per
    }

    predicate Used(x: nat)
      requires Shape() && InRange(x)
    {
      Split(this, x);
      Taken(maps[Group(x)], Index(x))
    }

    function MarkItem(x: nat): Pool
      requires Shape() && InRange(x)
    {
      Split(this, x);
      var g := Group(x);
      this.(maps := maps[g := Mark(maps[g], Index(x))],
            free := free[g := if free[g] > 0 then free[g] - 1 else 0],
            freeTotal := if freeTotal > 0 then freeTotal - 1 else 0)
    }

    function UnmarkItem(x: nat): Pool
      requires Shape() && InRange(x)
    {
      Split(this, x);
      var g := Group(x);
      this.(maps := maps[g := Unmark(maps[g], Index(x))], free := free[g := free[g] + 1], freeTotal := freeTotal + 1)
    }

    /** The lowest free item from x on, or 0. */
    function FirstFree(x: nat): nat
      requires Shape() && first <= x <= first + total
      decreases first + total - x
    {
      if x == first + total then 0 else if Used(x) then FirstFree(x + 1) else x
    }
  }

  /** Group and bit of an item: in bounds, and together they give the item back. */
  lemma Split(p: Pool, x: nat)
    requires p.per > 0 && p.total <= |p.maps| * p.per && p.InRange(x)
    ensures p.Group(x) < |p.maps|
    ensures p.Index(x) < p.Span(p.Group(x)) <= p.per
    ensures p.first + p.Group(x) * p.per + p.Index(x) == x
  {
    var g := p.Group(x);
    assert g * p.per <= x - p.first < p.total;
    if g >= |p.maps| {
      MulMono(|p.maps|, g, p.per);
    }
  }

  /** The division and remainder of the free path undo the number computed by the allocation path. */
  lemma Join(p: Pool, g: nat, k: nat)
    requires p.per > 0 && k < p.Span(g)
    ensures p.InRange(p.first + g * p.per + k)
    ensures p.Group(p.first + g * p.per + k) == g && p.Index(p.first + g * p.per + k) == k
  {
    DivMod(g, k, p.per);
  }

  /** Two items share group and bit only when they are the same item. */
  lemma SplitInjective(p: Pool, x: nat, y: nat)
    requires p.per > 0 && p.total <= |p.maps| * p.per && p.InRange(x) && p.InRange(y)
    requires p.Group(x) == p.Group(y) && p.Index(x) == p.Index(y)
    ensures x == y
  {
    Split(p, x);
    Split(p, y);
  }

  /** Allocating x changes the bit of x and no other. */
  lemma MarkUsed(p: Pool, x: nat, y: nat)
    requires p.Shape() && p.InRange(x) && p.InRange(y)
    ensures p.MarkItem(x).Shape()
    ensures p.MarkItem(x).Used(y) <==> y == x || p.Used(y)
    ensures p.UnmarkItem(x).Shape()
    ensures p.UnmarkItem(x).Used(y) <==> y != x && p.Used(y)
  {
    hide Taken, Mark, Unmark;
    Split(p, x);
    Split(p, y);
    if p.Group(x) == p.Group(y) {
      TakenMark(p.maps[p.Group(x)], p.Index(x), p.Index(y));
      if p.Index(x) == p.Index(y) {
        SplitInjective(p, x, y);
      }
    }
  }

  /** Replacing one group's bitmap keeps the pool consistent when that group's count is recounted. */
  lemma RecountGroup(p: Pool, g: nat, bm: Block)
    requires p.Valid() && g < |p.maps| && |bm| == |p.maps[g]|
    requires forall k | 0 < p.Span(g) <= k < 8 * |bm| :: Taken(bm, k)
    ensures p.freeTotal >= p.free[g]
    ensures var z := Zeros(bm, p.Span(g));
            p.(maps := p.maps[g := bm], free := p.free[g := z], freeTotal := p.freeTotal - p.free[g] + z).Valid()
  {
    hide Taken;
    SumUpdate(p.free, |p.free|, g, Zeros(bm, p.Span(g)));
    SumUpdate(p.free, |p.free|, g, 0);
  }

  /**
   Conservation: allocating a free item lowers the group count and the superblock count by one,
   and every count keeps equalling the number of clear bits.
   */
  lemma MarkKeeps(p: Pool, x: nat)
    requires p.Valid() && p.InRange(x) && !p.Used(x)
    ensures p.MarkItem(x).Valid()
    ensures p.Group(x) < |p.free| && p.free[p.Group(x)] > 0 && p.MarkItem(x).freeTotal == p.freeTotal - 1
  {
    hide Taken, Mark, Unmark, Zeros;
    Split(p, x);
    var g, k := p.Group(x), p.Index(x);
    var bm := p.maps[g];
    ZerosMark(bm, k, p.Span(g));
    forall j | 0 < p.Span(g) <= j < 8 * |bm| ensures Taken(Mark(bm, k), j) {
      TakenMark(bm, k, j);
    }
    RecountGroup(p, g, Mark(bm, k));
  }

  /** Freeing an allocated item keeps the counts exact as well ... */
  lemma UnmarkKeeps(p: Pool, x: nat)
    requires p.Valid() && p.InRange(x) && p.Used(x)
    ensures p.UnmarkItem(x).Valid() && p.UnmarkItem(x).freeTotal == p.freeTotal + 1
  {
    hide Taken, Mark, Unmark, Zeros;
    Split(p, x);
    var g, k := p.Group(x), p.Index(x);
    var bm := p.maps[g];
    ZerosMark(bm, k, p.Span(g));
    forall j | 0 < p.Span(g) <= j < 8 * |bm| ensures Taken(Unmark(bm, k), j) {
      TakenMark(bm, k, j);
    }
    RecountGroup(p, g, Unmark(bm, k));
  }

  /** ... but freeing an item that is already free always makes the group count wrong. */
  lemma FreeKeepsIff(p: Pool, x: nat)
    requires p.Valid() && p.InRange(x)
    ensures p.UnmarkItem(x).Valid() <==> p.Used(x)
  {
    hide Taken, Mark, Unmark;
    if p.Used(x) {
      UnmarkKeeps(p, x);
    } else {
      Split(p, x);
      var g := p.Group(x);
      ZerosMark(p.maps[g], p.Index(x), p.Span(g));
      assert p.UnmarkItem(x).free[g] != Zeros(p.UnmarkItem(x).maps[g], p.Span(g));
    }
  }

  /** Allocating a free item and freeing it at once restores every bitmap and every count. */
  lemma UnmarkMarkItem(p: Pool, x: nat)
    requires p.Valid() && p.InRange(x) && !p.Used(x)
    ensures p.MarkItem(x).Shape() && p.MarkItem(x).UnmarkItem(x) == p
  {
    hide Taken, Mark, Unmark;
    MarkKeeps(p, x);
    Split(p, x);
    UnmarkMark(p.maps[p.Group(x)], p.Index(x));
    assert p.MarkItem(x).UnmarkItem(x).maps == p.maps;
    assert p.MarkItem(x).UnmarkItem(x).free == p.free;
  }

  /** The superblock's count is zero exactly when every item is in use. */
  lemma NothingFree(p: Pool)
    requires p.Valid()
    ensures p.freeTotal == 0 <==> forall x | p.InRange(x) :: p.Used(x)
  {
    hide Taken;
    SumZero(p.free, |p.free|);
    forall g | 0 <= g < |p.maps|
      ensures p.free[g] == 0 <==> forall k | 0 <= k < p.Span(g) :: Taken(p.maps[g], k)
    {
      ZerosNone(p.maps[g], p.Span(g));
    }
    if p.freeTotal == 0 {
      forall x | p.InRange(x) ensures p.Used(x) {
        Split(p, x);
      }
    } else {
      var g :| 0 <= g < |p.maps| && p.free[g] != 0;
      var k :| 0 <= k < p.Span(g) && !Taken(p.maps[g], k);
      Join(p, g, k);
      assert !p.Used(p.first + g * p.per + k);
    }
  }

  /** FirstFree is the lowest free item; it is 0 exactly when there is none. */
  lemma {:induction false} FirstFreeIs(p: Pool, x: nat)
    requires p.Shape() && p.first <= x <= p.first + p.total
    requires p.InRange(0) ==> p.Used(0)
    ensures var r := p.FirstFree(x);
      && (r == 0 ==> forall y | x <= y && p.InRange(y) :: p.Used(y))
      && (r != 0 ==> x <= r && p.InRange(r) && !p.Used(r) && forall y | x <= y < r && p.InRange(y) :: p.Used(y))
    decreases p.first + p.total - x
  {
    if p.InRange(x) && p.Used(x) {
      FirstFreeIs(p, x + 1);
    }
  }

  lemma FirstFreeUnique(p: Pool, r: nat)
    requires p.Shape() && p.InRange(r) && !p.Used(r) && forall y | p.first <= y < r :: p.Used(y)
    requires p.InRange(0) ==> p.Used(0)
    ensures p.FirstFree(p.first) == r
  {
    FirstFreeIs(p, p.first);
  }

  // ----- the scan over groups -----

  /** A group whose count is zero has no clear bit, so skipping it is right ... */
  lemma FullGroup(p: Pool, g: nat)
    requires p.Valid() && g < |p.maps| && p.free[g] == 0
    ensures p.Span(g) <= 8 * |p.maps[g]| && forall k | 0 <= k < p.Span(g) :: Taken(p.maps[g], k)
  {
    hide Taken;
    ZerosNone(p.maps[g], p.Span(g));
  }

  /** ... and in a group whose count is not zero the first clear bit belongs to an item. */
  lemma ClearBitInSpan(p: Pool, g: nat, k: int)
    requires p.Valid() && g < |p.maps| && p.free[g] > 0
    requires k == -1 ==> forall j | 0 <= j < 8 * |p.maps[g]| :: Taken(p.maps[g], j)
    requires k != -1 ==> 0 <= k < 8 * |p.maps[g]| && !Taken(p.maps[g], k)
    ensures 0 <= k < p.Span(g)
  {
    hide Taken;
    ZerosNone(p.maps[g], p.Span(g));
  }

  ghost predicate GroupsFull(p: Pool, n: nat)
    requires p.Shape() && n <= |p.maps|
  {
    forall h, k | 0 <= h < n && 0 <= k < p.Span(h) :: Taken(p.maps[h], k)
  }

  /** The first clear bit of the first group that is not full is the lowest free item. */
  lemma LowestItem(p: Pool, g: nat, k: nat)
    requires p.Shape() && g < |p.maps| && k < p.Span(g) && GroupsFull(p, g)
    requires !Taken(p.maps[g], k) && forall j | 0 <= j < k :: Taken(p.maps[g], j)
    requires p.InRange(0) ==> p.Used(0)
    ensures p.InRange(p.first + g * p.per + k) && !p.Used(p.first + g * p.per + k)
    ensures p.Group(p.first + g * p.per + k) == g && p.Index(p.first + g * p.per + k) == k
    ensures p.FirstFree(p.first) == p.first + g * p.per + k
  {
    hide Taken;
    Join(p, g, k);
    var r := p.first + g * p.per + k;
    forall y | p.first <= y < r ensures p.Used(y) {
      Split(p, y);
      if p.Group(y) > g {
        MulStep(g, p.Group(y), p.per);
      }
    }
    FirstFreeUnique(p, r);
  }

  lemma AllFull(p: Pool)
    requires p.Shape() && GroupsFull(p, |p.maps|)
    requires p.InRange(0) ==> p.Used(0)
    ensures p.FirstFree(p.first) == 0
  {
    hide Taken;
    FirstFreeIs(p, p.first);
    var r := p.FirstFree(p.first);
    if r != 0 {
      Split(p, r);
    }
  }

  /** An allocation fails exactly when the superblock's count is zero. */
  lemma NoneFreeIff(p: Pool)
    requires p.Valid() && (p.InRange(0) ==> p.Used(0))
    ensures p.FirstFree(p.first) == 0 <==> p.freeTotal == 0
  {
    hide Taken, Pool.Used;
    NothingFree(p);
    FirstFreeIs(p, p.first);
  }
}
