/** Runs of the two allocators, and small volumes that meet what the theorems assume. */
module Ext2Runs {
  import opened Arith
  import opened Bits
  import opened Bytes
  import opened Ext2Bitmap
  import opened Ext2Dir
  import opened Ext2File
  import opened Ext2Fs
  import opened Ext2Inode
  import opened Ext2Ops
  import opened Ext2Volume

  // ----- runs -----

  datatype Step = TakeBlock | GiveBlock(b: nat) | TakeInode | GiveInode(i: nat)

  /** Only items in use are given back. */
  ghost predicate Allowed(v: Volume, s: Step)
    requires v.BlockPool().Shape() && v.InodePool().Shape()
  {
    match s
    case GiveBlock(b) => v.BlockUsed(b) && b < |v.roles| && v.roles[b] == Data
    case GiveInode(i) => v.InodeUsed(i)
    case _ => true
  }

  function Apply(v: Volume, s: Step): Volume
    requires v.BlockPool().Shape() && v.InodePool().Shape()
  {
    match s
    case TakeBlock =>
      var b := v.BlockPool().FirstFree(v.firstDataBlock);
      if b != 0 && v.BlockPool().InRange(b) then v.MarkBlock(b) else v
    case GiveBlock(b) => if v.BlockPool().InRange(b) then v.UnmarkBlock(b) else v
    case TakeInode =>
      var i := v.InodePool().FirstFree(1);
      if i != 0 && v.InodePool().InRange(i) then v.MarkInode(i) else v
    case GiveInode(i) => if v.InodePool().InRange(i) then v.UnmarkInode(i) else v
  }

  lemma ApplyKeeps(v: Volume, s: Step)
    requires v.BlockPool().Shape() && v.InodePool().Shape() && v.Valid() && Allowed(v, s)
    ensures Apply(v, s).Valid()
  {
    hide Volume.Valid, Volume.BlockPool, Volume.InodePool, Volume.MarkBlock, Volume.UnmarkBlock, Volume.MarkInode, Volume.UnmarkInode, Pool.FirstFree;
    match s
    case TakeBlock => TakeBlockKeeps(v);
    case GiveBlock(b) => UnmarkBlockKeeps(v, b);
    case TakeInode => TakeInodeKeeps(v);
    case GiveInode(i) => UnmarkInodeKeeps(v, i);
  }

  lemma TakeBlockKeeps(v: Volume)
    requires v.BlockPool().Shape() && v.InodePool().Shape() && v.Valid()
    ensures Apply(v, TakeBlock).Valid()
  {
    hide Volume.Valid, Pool.Used, Volume.MarkBlock, Pool.FirstFree;
    ZeroUsed(v);
    FirstFreeIs(v.BlockPool(), v.firstDataBlock);
    var b := v.BlockPool().FirstFree(v.firstDataBlock);
    if b != 0 {
      MarkBlockKeeps(v, b);
    }
  }

  lemma TakeInodeKeeps(v: Volume)
    requires v.BlockPool().Shape() && v.InodePool().Shape() && v.Valid()
    ensures Apply(v, TakeInode).Valid()
  {
    hide Volume.Valid, Pool.Used, Volume.MarkInode, Pool.FirstFree;
    FirstFreeIs(v.InodePool(), 1);
    var i := v.InodePool().FirstFree(1);
    if i != 0 {
      MarkInodeKeeps(v, i);
    }
  }

  /** Block 0 is never handed out. */
  lemma ZeroUsed(v: Volume)
    requires v.Valid()
    ensures v.BlockPool().InRange(0) ==> v.BlockPool().Used(0)
  {
    hide Pool.Valid, Pool.Used;
  }

  /** The clear bits of the first n groups. */
  function ClearBits(p: Pool, n: nat): nat
    requires p.Shape() && n <= |p.maps|
  {
    if n == 0 then 0 else ClearBits(p, n - 1) + Zeros(p.maps[n - 1], p.Span(n - 1))
  }

  lemma {:induction false} CountsAre(p: Pool, n: nat)
    requires p.Valid() && n <= |p.maps|
    ensures Sum(p.free, n) == ClearBits(p, n)
  {
    hide Taken, Zeros;
    if n > 0 {
      CountsAre(p, n - 1);
    }
  }

  ghost predicate Run(states: seq<Volume>, steps: seq<Step>) {
    && |states| == |steps| + 1
    && forall k | 0 <= k < |steps| ::
         states[k].BlockPool().Shape() && states[k].InodePool().Shape() && Allowed(states[k], steps[k]) && states[k + 1] == Apply(states[k], steps[k])
  }

  /**
   Conservation over any run of allocations and frees: after every step the superblock counts equal
   the numbers of clear bits of all groups together.
   */
  lemma {:induction false} RunCounts(states: seq<Volume>, steps: seq<Step>, k: nat)
    requires Run(states, steps) && states[0].Valid() && k < |states|
    ensures states[k].Valid()
    ensures states[k].freeBlocks == ClearBits(states[k].BlockPool(), |states[k].groups|)
    ensures states[k].freeInodes == ClearBits(states[k].InodePool(), |states[k].groups|)
  {
    hide Volume.Valid, Apply, Allowed, ClearBits;
    if k > 0 {
      RunCounts(states, steps, k - 1);
      ApplyKeeps(states[k - 1], steps[k - 1]);
    }
    Totals(states[k]);
  }

  lemma Totals(v: Volume)
    requires v.Valid()
    ensures v.BlockPool().Shape() && v.InodePool().Shape()
    ensures |v.BlockPool().maps| == |v.groups| == |v.InodePool().maps|
    ensures v.freeBlocks == ClearBits(v.BlockPool(), |v.groups|) && v.freeInodes == ClearBits(v.InodePool(), |v.groups|)
  {
    hide ClearBits, Pool.Used;
    CountsAre(v.BlockPool(), |v.groups|);
    CountsAre(v.InodePool(), |v.groups|);
  }

  // ----- witnesses -----

  /** A bitmap of 1024 bytes with every bit set. */
  function Full(): (b: Block)
    ensures |b| == 1024
  {
    seq<Byte>(1024, _ => 255)
  }

  lemma FullTaken(k: nat)
    requires k < 8 * |Full()|
    ensures Taken(Full(), k)
  {
    hide BitOf;
    Pow2Values();
    FullWord(8, k % 8);
  }

  /** One free bit, k, among the first n. */
  lemma OneFree(k: nat, n: nat)
    requires k < n <= 8192
    ensures Zeros(Unmark(Full(), k), n) == 1 && !Taken(Unmark(Full(), k), k)
    ensures forall j: nat | j < 8192 && j != k :: Taken(Unmark(Full(), k), j)
  {
    hide Taken, Unmark;
    forall j: nat | j < 8192 ensures Taken(Full(), j) {
      FullTaken(j);
    }
    ZerosNone(Full(), n);
    ZerosMark(Full(), k, n);
    forall j: nat | j < 8192 ensures Taken(Unmark(Full(), k), j) <==> j != k {
      TakenMark(Full(), k, j);
    }
  }

  /** Eight blocks of 1024 bytes, one group: boot, superblock, descriptors, two bitmaps, inode table, and data blocks 6 and 7; block 7 and inode 8 are free. */
  function Small(): Volume {
    Volume(1024, 8, 8, 1, 8, 8, 128,
      [Reserved, Reserved, Reserved, BlockBitmap(0), InodeBitmap(0), InodeTable(0, 0), Data, Data],
      1, 1, [GroupDesc(3, 4, 5, 1, 1)],
      [Blank(1024), Blank(1024), Blank(1024), Unmark(Full(), 6), Unmark(Full(), 7), Blank(1024), Blank(1024), Blank(1024)])
  }

  lemma SmallPools()
    ensures Small().BlockPool() == Pool(1, 7, 8, [Unmark(Full(), 6)], [1], 1)
    ensures Small().InodePool() == Pool(1, 8, 8, [Unmark(Full(), 7)], [1], 1)
  {
    hide Unmark, Full;
    assert Small().BlockPool().maps == [Unmark(Full(), 6)] && Small().BlockPool().free == [1];
    assert Small().InodePool().maps == [Unmark(Full(), 7)] && Small().InodePool().free == [1];
  }

  lemma OnePool(total: nat, k: nat)
    requires k + 1 == total <= 8
    ensures Pool(1, total, 8, [Unmark(Full(), k)], [1], 1).Valid()
    ensures forall x: nat | 1 <= x < total + 1 :: Pool(1, total, 8, [Unmark(Full(), k)], [1], 1).Used(x) <==> x != total
  {
    hide Taken, Unmark, Full, Zeros;
    OneFree(k, total);
    var p := Pool(1, total, 8, [Unmark(Full(), k)], [1], 1);
    assert p.Span(0) == total;
    assert Sum([1], 1) == Sum([1], 0) + 1;
    forall x: nat | 1 <= x < total + 1 ensures p.Used(x) <==> x != total {
      assert p.Group(x) == 0 && p.Index(x) == x - 1;
    }
  }

  /** The theorems' assumptions about a mounted volume can be met ... */
  lemma SmallValid()
    ensures Small().Valid() && Small().BlockUsed(6) && !Small().BlockUsed(7) && Small().InodeUsed(1) && !Small().InodeUsed(8)
  {
    hide Pool.Valid, Pool.Used, Unmark, Full, Volume.BlockPool, Volume.InodePool;
    SmallPools();
    OnePool(7, 6);
    OnePool(8, 7);
  }

  /** ... and so can the invariant of files and directories, with an empty directory in use. */
  lemma SmallFs()
    ensures var img := FreshInode(0x4000, 0, 0, 2);
      FullInv(Fs(1024, 1, 3, 2, {}, {2}, map[1 := img, 2 := img], map[1 := Blank(1024), 2 := Blank(1024)])) && IsDir(img)
  {
    hide FreshInode, Blank;
    FreshFields(0x4000, 0, 0, 2);
  }

  /** A concrete double free: block 6 given back twice leaves counts that no longer match. */
  lemma SmallDoubleFree()
    ensures Small().Valid() && Small().BlockUsed(6)
    ensures Small().UnmarkBlock(6).Valid() && !Small().UnmarkBlock(6).UnmarkBlock(6).Valid()
  {
    hide Volume.Valid, Volume.BlockPool, Volume.InodePool, Volume.UnmarkBlock, Unmark, Full;
    SmallValid();
    DoubleFreeBlock(Small(), 6);
  }
}
