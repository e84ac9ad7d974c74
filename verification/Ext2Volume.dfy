/**
 The mounted ext2 volume as a value: geometry, the in-memory superblock counts and group
 descriptors, and the disk blocks.  Allocation and block writes are functions on it.
 */
module Ext2Volume {
  import opened Arith
  import opened Bytes
  import opened Ext2Bitmap

  /** What a disk block is for.  Regions are disjoint exactly because every block has one role. */
  datatype Role = Reserved | BlockBitmap(g: nat) | InodeBitmap(g: nat) | InodeTable(g: nat, k: nat) | Data

  datatype GroupDesc = GroupDesc(blockBitmap: nat, inodeBitmap: nat, inodeTable: nat, freeBlocks: nat, freeInodes: nat)

  function Blank(n: nat): (b: Block)
    ensures |b| == n && forall k | 0 <= k < n :: b[k] == 0
  {
    seq(n, _ => 0)
  }

  datatype Volume = Volume(
    blockSize: nat, blocksPerGroup: nat, inodesPerGroup: nat, firstDataBlock: nat,
    blocksCount: nat, inodesCount: nat, inodeSize: nat, roles: seq<Role>,
    freeBlocks: nat, freeInodes: nat, groups: seq<GroupDesc>, disk: seq<Block>)
  {
    function InodesPerBlock(): nat
      requires inodeSize > 0
    {
      blockSize / inodeSize
    }

    /** Ranges that hold of any mounted image. */
    ghost predicate Geometry() {
      && 1024 <= blockSize <= 32768 && blockSize % 1024 == 0
      && 128 <= inodeSize && InodesPerBlock() * inodeSize == blockSize
      && 0 < blocksPerGroup <= 8 * blockSize && blocksPerGroup < 0x1_0000
      && 0 < inodesPerGroup <= 8 * blockSize && inodesPerGroup < 0x1_0000
      && firstDataBlock < blocksCount < TWO32
      && blocksCount <= |groups| * blocksPerGroup
      && inodesCount <= |groups| * inodesPerGroup && inodesCount < TWO32
      && |disk| == |roles| == blocksCount
      && (forall b | 0 <= b < |disk| :: |disk[b]| == blockSize)
    }

    function BlockSpan(g: nat): nat {
      BlockShape().Span(g)
    }

    function InodeSpan(g: nat): nat {
      InodeShape().Span(g)
    }

    function BlockShape(): Pool {
      Pool(firstDataBlock, if firstDataBlock <= blocksCount then blocksCount - firstDataBlock else 0,
           blocksPerGroup, [], [], freeBlocks)
    }

    function InodeShape(): Pool {
      Pool(1, inodesCount, inodesPerGroup, [], [], freeInodes)
    }

    /** Every group's metadata lies where its descriptor says, and nowhere else. */
    ghost predicate Placed() {
      && |disk| == |roles|
      && (forall g | 0 <= g < |groups| && BlockSpan(g) > 0 ::
            groups[g].blockBitmap < |disk| && roles[groups[g].blockBitmap] == BlockBitmap(g))
      && (forall g | 0 <= g < |groups| && InodeSpan(g) > 0 ::
            groups[g].inodeBitmap < |disk| && roles[groups[g].inodeBitmap] == InodeBitmap(g))
      && inodeSize > 0 && InodesPerBlock() > 0
      && (forall g: nat, k: nat | g < |groups| && InodeSpan(g) > 0 && k <= (inodesPerGroup - 1) / InodesPerBlock() :: HasTable(g, k))
    }

    /** Block k of group g's inode table is where the descriptor says. */
    predicate HasTable(g: nat, k: nat)
      requires g < |groups| && |disk| == |roles|
    {
      groups[g].inodeTable + k < |disk| && roles[groups[g].inodeTable + k] == InodeTable(g, k)
    }

    /** The bitmap of group g; a group that holds no block has none. */
    function BlockMap(g: nat): Block
      requires g < |groups|
    {
      if BlockSpan(g) > 0 && groups[g].blockBitmap < |disk| then disk[groups[g].blockBitmap] else Blank(blockSize)
    }

    function InodeMap(g: nat): Block
      requires g < |groups|
    {
      if InodeSpan(g) > 0 && groups[g].inodeBitmap < |disk| then disk[groups[g].inodeBitmap] else Blank(blockSize)
    }

    function BlockPool(): Pool {
      BlockShape().(maps := seq(|groups|, g requires 0 <= g < |groups| => BlockMap(g)),
                    free := seq(|groups|, g requires 0 <= g < |groups| => groups[g].freeBlocks))
    }

    function InodePool(): Pool {
      InodeShape().(maps := seq(|groups|, g requires 0 <= g < |groups| => InodeMap(g)),
                    free := seq(|groups|, g requires 0 <= g < |groups| => groups[g].freeInodes))
    }

    ghost predicate Valid() {
      && Geometry() && Placed()
      && BlockPool().Valid() && InodePool().Valid()
      && (forall b: nat | BlockPool().InRange(b) && roles[b] != Data :: BlockPool().Used(b))
      && (forall b | 0 <= b < |roles| && roles[b] == Data :: 0 < b && firstDataBlock <= b)
    }

    predicate BlockUsed(b: nat)
      requires BlockPool().Shape()
    {
      BlockPool().InRange(b) && BlockPool().Used(b)
    }

    predicate InodeUsed(i: nat)
      requires InodePool().Shape()
    {
      InodePool().InRange(i) && InodePool().Used(i)
    }

    // ----- the allocation and write primitives -----

    function WriteBlock(b: nat, blk: Block): Volume
      requires b < |disk|
    {
      this.(disk := disk[b := blk])
    }

    function MarkBlock(b: nat): Volume
      requires BlockPool().Shape() && BlockPool().InRange(b)
    {
      Split(BlockPool(), b);
      var p := BlockPool().MarkItem(b);
      var g := BlockPool().Group(b);
      SetBlockMap(g, p.maps[g], p.free[g], p.freeTotal)
    }

    function UnmarkBlock(b: nat): Volume
      requires BlockPool().Shape() && BlockPool().InRange(b)
    {
      Split(BlockPool(), b);
      var p := BlockPool().UnmarkItem(b);
      var g := BlockPool().Group(b);
      SetBlockMap(g, p.maps[g], p.free[g], p.freeTotal)
    }

    function MarkInode(i: nat): Volume
      requires InodePool().Shape() && InodePool().InRange(i)
    {
      Split(InodePool(), i);
      var p := InodePool().MarkItem(i);
      var g := InodePool().Group(i);
      SetInodeMap(g, p.maps[g], p.free[g], p.freeTotal)
    }

    function UnmarkInode(i: nat): Volume
      requires InodePool().Shape() && InodePool().InRange(i)
    {
      Split(InodePool(), i);
      var p := InodePool().UnmarkItem(i);
      var g := InodePool().Group(i);
      SetInodeMap(g, p.maps[g], p.free[g], p.freeTotal)
    }

    function SetBlockMap(g: nat, bm: Block, free: nat, total: nat): Volume
      requires g < |groups|
    {
      this.(disk := if groups[g].blockBitmap < |disk| then disk[groups[g].blockBitmap := bm] else disk,
            groups := groups[g := groups[g].(freeBlocks := free)],
            freeBlocks := total)
    }

    function SetInodeMap(g: nat, bm: Block, free: nat, total: nat): Volume
      requires g < |groups|
    {
      this.(disk := if groups[g].inodeBitmap < |disk| then disk[groups[g].inodeBitmap := bm] else disk,
            groups := groups[g := groups[g].(freeInodes := free)],
            freeInodes := total)
    }
  }

  /** Writing group g's block bitmap changes that pool in group g, and no inode bitmap. */
  lemma SetBlockMapPools(v: Volume, g: nat, bm: Block, free: nat, total: nat)
    requires v.Placed() && g < |v.groups| && v.BlockSpan(g) > 0 && |bm| == v.blockSize
    ensures var w := v.SetBlockMap(g, bm, free, total); var p := v.BlockPool();
            && w.BlockPool() == p.(maps := p.maps[g := bm], free := p.free[g := free], freeTotal := total)
            && w.InodePool() == v.InodePool()
  {
    var w := v.SetBlockMap(g, bm, free, total);
    var p := v.BlockPool();
    var q := p.(maps := p.maps[g := bm], free := p.free[g := free], freeTotal := total);
    forall h | 0 <= h < |v.groups|
      ensures w.BlockMap(h) == q.maps[h] && w.groups[h].freeBlocks == q.free[h] && w.InodeMap(h) == v.InodeMap(h)
    {
      assert w.BlockSpan(h) == v.BlockSpan(h) && w.InodeSpan(h) == v.InodeSpan(h);
    }
    assert w.BlockPool().maps == q.maps;
    assert w.BlockPool().free == q.free;
    assert w.InodePool().maps == v.InodePool().maps;
    assert w.InodePool().free == v.InodePool().free;
  }

  lemma SetInodeMapPools(v: Volume, g: nat, bm: Block, free: nat, total: nat)
    requires v.Placed() && g < |v.groups| && v.InodeSpan(g) > 0 && |bm| == v.blockSize
    ensures var w := v.SetInodeMap(g, bm, free, total); var p := v.InodePool();
            && w.InodePool() == p.(maps := p.maps[g := bm], free := p.free[g := free], freeTotal := total)
            && w.BlockPool() == v.BlockPool()
  {
    var w := v.SetInodeMap(g, bm, free, total);
    var p := v.InodePool();
    var q := p.(maps := p.maps[g := bm], free := p.free[g := free], freeTotal := total);
    forall h | 0 <= h < |v.groups|
      ensures w.InodeMap(h) == q.maps[h] && w.groups[h].freeInodes == q.free[h] && w.BlockMap(h) == v.BlockMap(h)
    {
      assert w.BlockSpan(h) == v.BlockSpan(h) && w.InodeSpan(h) == v.InodeSpan(h);
    }
    assert w.InodePool().maps == q.maps;
    assert w.InodePool().free == q.free;
    assert w.BlockPool().maps == v.BlockPool().maps;
    assert w.BlockPool().free == v.BlockPool().free;
  }

  /** Writing a block that is no bitmap leaves both pools as they are. */
  lemma WriteBlockPools(v: Volume, b: nat, blk: Block)
    requires v.Placed() && b < |v.disk| && (v.roles[b] == Data || v.roles[b].InodeTable?)
    ensures v.WriteBlock(b, blk).BlockPool() == v.BlockPool()
    ensures v.WriteBlock(b, blk).InodePool() == v.InodePool()
  {
    var w := v.WriteBlock(b, blk);
    forall h | 0 <= h < |v.groups| ensures w.BlockMap(h) == v.BlockMap(h) && w.InodeMap(h) == v.InodeMap(h) {
      assert w.BlockSpan(h) == v.BlockSpan(h) && w.InodeSpan(h) == v.InodeSpan(h);
    }
    assert w.BlockPool().maps == v.BlockPool().maps;
    assert w.BlockPool().free == v.BlockPool().free;
    assert w.InodePool().maps == v.InodePool().maps;
    assert w.InodePool().free == v.InodePool().free;
  }

  lemma WriteBlockKeeps(v: Volume, b: nat, blk: Block)
    requires v.Valid() && b < |v.disk| && |blk| == v.blockSize
    requires v.roles[b] == Data || v.roles[b].InodeTable?
    ensures v.WriteBlock(b, blk).Valid()
  {
    hide Pool.Valid, Pool.Used;
    var w := v.WriteBlock(b, blk);
    WriteBlockPools(v, b, blk);
    assert w.Placed() by { SamePlaces(v, w); }
  }

  /** The two volumes differ in free counts and block contents only. */
  ghost predicate SameLayout(v: Volume, w: Volume) {
    && |w.groups| == |v.groups| && |w.disk| == |v.disk|
    && (forall g | 0 <= g < |v.groups| ::
          && w.groups[g].blockBitmap == v.groups[g].blockBitmap
          && w.groups[g].inodeBitmap == v.groups[g].inodeBitmap
          && w.groups[g].inodeTable == v.groups[g].inodeTable)
    && w == v.(freeBlocks := w.freeBlocks, freeInodes := w.freeInodes, groups := w.groups, disk := w.disk)
  }

  lemma SameSpans(v: Volume, w: Volume, g: nat)
    requires SameLayout(v, w)
    ensures w.BlockSpan(g) == v.BlockSpan(g) && w.InodeSpan(g) == v.InodeSpan(g)
    ensures v.inodeSize > 0 ==> w.InodesPerBlock() == v.InodesPerBlock()
  {
  }

  lemma SamePlaces(v: Volume, w: Volume)
    requires v.Placed() && SameLayout(v, w)
    ensures w.Placed()
  {
    hide Volume.BlockSpan, Volume.InodeSpan, Volume.InodesPerBlock;
    forall g: nat ensures w.BlockSpan(g) == v.BlockSpan(g) && w.InodeSpan(g) == v.InodeSpan(g) {
      SameSpans(v, w, g);
    }
    SameSpans(v, w, 0);
    forall g: nat, k: nat | g < |w.groups| && w.InodeSpan(g) > 0 && k <= (w.inodesPerGroup - 1) / w.InodesPerBlock()
      ensures w.HasTable(g, k)
    {
      assert v.HasTable(g, k);
    }
  }

  /** Same layout, and the same bytes in every block that is not a bitmap. */
  ghost predicate SameContents(v: Volume, w: Volume) {
    && SameLayout(v, w)
    && |v.roles| == |v.disk|
    && forall b | 0 <= b < |v.disk| && (v.roles[b] == Data || v.roles[b].InodeTable?) :: w.disk[b] == v.disk[b]
  }

  /** Allocating a free block: still a valid volume, one more block in use, contents untouched. */
  lemma MarkBlockKeeps(v: Volume, b: nat)
    requires v.Valid() && v.BlockPool().InRange(b) && !v.BlockUsed(b)
    ensures var w := v.MarkBlock(b);
            && w.Valid() && SameContents(v, w)
            && w.BlockPool() == v.BlockPool().MarkItem(b) && w.InodePool() == v.InodePool()
    ensures v.roles[b] == Data
  {
    hide Pool.Valid, Pool.Used, Pool.MarkItem;
    var w := v.MarkBlock(b);
    BlockMapStep(v, b);
    MarkKeeps(v.BlockPool(), b);
    assert w.Placed() by { SamePlaces(v, w); }
    forall x: nat | v.BlockPool().InRange(x) && v.roles[x] != Data ensures w.BlockPool().Used(x) {
      MarkUsed(v.BlockPool(), b, x);
    }
  }

  lemma SetBlockMapContents(v: Volume, g: nat, bm: Block, free: nat, total: nat)
    requires v.Geometry() && v.Placed() && g < |v.groups| && v.BlockSpan(g) > 0 && |bm| == v.blockSize
    ensures SameContents(v, v.SetBlockMap(g, bm, free, total))
    ensures v.SetBlockMap(g, bm, free, total).Geometry()
  {
  }

  lemma SetInodeMapContents(v: Volume, g: nat, bm: Block, free: nat, total: nat)
    requires v.Geometry() && v.Placed() && g < |v.groups| && v.InodeSpan(g) > 0 && |bm| == v.blockSize
    ensures SameContents(v, v.SetInodeMap(g, bm, free, total))
    ensures v.SetInodeMap(g, bm, free, total).Geometry()
  {
  }

  /** MarkBlock and UnmarkBlock act on the block pool as MarkItem and UnmarkItem, and on nothing else. */
  lemma BlockMapStep(v: Volume, b: nat)
    requires v.Placed() && v.Geometry() && v.BlockPool().Shape() && v.BlockPool().InRange(b)
    ensures v.MarkBlock(b).BlockPool() == v.BlockPool().MarkItem(b)
    ensures v.UnmarkBlock(b).BlockPool() == v.BlockPool().UnmarkItem(b)
    ensures v.MarkBlock(b).InodePool() == v.UnmarkBlock(b).InodePool() == v.InodePool()
    ensures SameContents(v, v.MarkBlock(b)) && SameContents(v, v.UnmarkBlock(b))
    ensures v.MarkBlock(b).Geometry() && v.UnmarkBlock(b).Geometry()
  {
    hide Mark, Unmark, SameContents;
    Split(v.BlockPool(), b);
    var g := v.BlockPool().Group(b);
    var p, q := v.BlockPool().MarkItem(b), v.BlockPool().UnmarkItem(b);
    SetBlockMapPools(v, g, p.maps[g], p.free[g], p.freeTotal);
    SetBlockMapPools(v, g, q.maps[g], q.free[g], q.freeTotal);
    SetBlockMapContents(v, g, p.maps[g], p.free[g], p.freeTotal);
    SetBlockMapContents(v, g, q.maps[g], q.free[g], q.freeTotal);
  }

  /** Freeing an allocated data block. */
  lemma UnmarkBlockKeeps(v: Volume, b: nat)
    requires v.Valid() && v.BlockUsed(b) && v.roles[b] == Data
    ensures var w := v.UnmarkBlock(b);
            && w.Valid() && SameContents(v, w)
            && w.BlockPool() == v.BlockPool().UnmarkItem(b) && w.InodePool() == v.InodePool()
  {
    hide Pool.Valid, Pool.Used, Pool.UnmarkItem;
    var w := v.UnmarkBlock(b);
    BlockMapStep(v, b);
    UnmarkKeeps(v.BlockPool(), b);
    assert w.Placed() by { SamePlaces(v, w); }
    forall x: nat | v.BlockPool().InRange(x) && v.roles[x] != Data ensures w.BlockPool().Used(x) {
      MarkUsed(v.BlockPool(), b, x);
    }
  }

  /** A free keeps the volume valid if and only if the block was in use and is a data block. */
  lemma FreeBlockKeepsIff(v: Volume, b: nat)
    requires v.Valid() && v.BlockPool().InRange(b)
    ensures v.UnmarkBlock(b).Valid() <==> v.BlockUsed(b) && v.roles[b] == Data
  {
    hide Pool.Valid, Pool.Used, Pool.UnmarkItem;
    BlockMapStep(v, b);
    FreeKeepsIff(v.BlockPool(), b);
    if v.BlockUsed(b) && v.roles[b] == Data {
      UnmarkBlockKeeps(v, b);
    } else {
      MarkUsed(v.BlockPool(), b, b);
    }
  }

  lemma DoubleFreeBlock(v: Volume, b: nat)
    requires v.Valid() && v.BlockUsed(b) && v.roles[b] == Data
    ensures v.UnmarkBlock(b).Valid() && !v.UnmarkBlock(b).UnmarkBlock(b).Valid()
  {
    hide Pool.Valid, Pool.Used, Pool.UnmarkItem, Volume.UnmarkBlock, Volume.Valid;
    ValidParts(v);
    UnmarkBlockKeeps(v, b);
    MarkUsed(v.BlockPool(), b, b);
    FreeBlockKeepsIff(v.UnmarkBlock(b), b);
  }

  lemma InodeMapStep(v: Volume, i: nat)
    requires v.Placed() && v.Geometry() && v.InodePool().Shape() && v.InodePool().InRange(i)
    ensures v.MarkInode(i).InodePool() == v.InodePool().MarkItem(i)
    ensures v.UnmarkInode(i).InodePool() == v.InodePool().UnmarkItem(i)
    ensures v.MarkInode(i).BlockPool() == v.UnmarkInode(i).BlockPool() == v.BlockPool()
    ensures SameContents(v, v.MarkInode(i)) && SameContents(v, v.UnmarkInode(i))
    ensures v.MarkInode(i).Geometry() && v.UnmarkInode(i).Geometry()
  {
    hide Mark, Unmark, SameContents;
    Split(v.InodePool(), i);
    var g := v.InodePool().Group(i);
    var p, q := v.InodePool().MarkItem(i), v.InodePool().UnmarkItem(i);
    SetInodeMapPools(v, g, p.maps[g], p.free[g], p.freeTotal);
    SetInodeMapPools(v, g, q.maps[g], q.free[g], q.freeTotal);
    SetInodeMapContents(v, g, p.maps[g], p.free[g], p.freeTotal);
    SetInodeMapContents(v, g, q.maps[g], q.free[g], q.freeTotal);
  }

  lemma MarkInodeKeeps(v: Volume, i: nat)
    requires v.Valid() && v.InodePool().InRange(i) && !v.InodeUsed(i)
    ensures var w := v.MarkInode(i);
            && w.Valid() && SameContents(v, w)
            && w.InodePool() == v.InodePool().MarkItem(i) && w.BlockPool() == v.BlockPool()
  {
    hide Pool.Valid, Pool.Used, Pool.MarkItem;
    var w := v.MarkInode(i);
    InodeMapStep(v, i);
    MarkKeeps(v.InodePool(), i);
    assert w.Placed() by { SamePlaces(v, w); }
  }

  lemma UnmarkInodeKeeps(v: Volume, i: nat)
    requires v.Valid() && v.InodeUsed(i)
    ensures var w := v.UnmarkInode(i);
            && w.Valid() && SameContents(v, w)
            && w.InodePool() == v.InodePool().UnmarkItem(i) && w.BlockPool() == v.BlockPool()
  {
    hide Pool.Valid, Pool.Used, Pool.UnmarkItem;
    var w := v.UnmarkInode(i);
    InodeMapStep(v, i);
    UnmarkKeeps(v.InodePool(), i);
    assert w.Placed() by { SamePlaces(v, w); }
  }

  /** A free keeps the volume valid if and only if the inode was in use. */
  lemma FreeInodeKeepsIff(v: Volume, i: nat)
    requires v.Valid() && v.InodePool().InRange(i)
    ensures v.UnmarkInode(i).Valid() <==> v.InodeUsed(i)
  {
    hide Pool.Valid, Pool.Used, Pool.UnmarkItem;
    InodeMapStep(v, i);
    FreeKeepsIff(v.InodePool(), i);
    if v.InodeUsed(i) {
      UnmarkInodeKeeps(v, i);
    }
  }

  /** So freeing twice always breaks the counts: a delete through the second name of a linked file does it. */
  lemma DoubleFree(v: Volume, i: nat)
    requires v.Valid() && v.InodeUsed(i)
    ensures v.UnmarkInode(i).Valid() && !v.UnmarkInode(i).UnmarkInode(i).Valid()
  {
    hide Pool.Valid, Pool.Used, Pool.UnmarkItem, Volume.UnmarkInode, Volume.Valid;
    ValidParts(v);
    UnmarkInodeKeeps(v, i);
    MarkUsed(v.InodePool(), i, i);
    FreeInodeKeepsIff(v.UnmarkInode(i), i);
  }

  lemma ValidParts(v: Volume)
    requires v.Valid()
    ensures v.Geometry() && v.Placed() && v.BlockPool().Shape() && v.InodePool().Shape()
  {
  }

  /** Taking a free block and giving it back is invisible, byte for byte and count for count. */
  lemma UnmarkMarkBlock(v: Volume, b: nat)
    requires v.Valid() && v.BlockPool().InRange(b) && !v.BlockUsed(b)
    ensures v.MarkBlock(b).Valid() && v.MarkBlock(b).UnmarkBlock(b) == v
  {
    hide Pool.Valid, Pool.Used, Pool.MarkItem, Pool.UnmarkItem, Mark, Unmark;
    MarkBlockKeeps(v, b);
    UnmarkMarkItem(v.BlockPool(), b);
    Split(v.BlockPool(), b);
    var g := v.BlockPool().Group(b);
    var w := v.MarkBlock(b);
    var u := w.UnmarkBlock(b);
    BlockMapStep(w, b);
    assert u.BlockPool() == v.BlockPool();
    assert u.BlockPool().maps[g] == v.BlockPool().maps[g];
    assert u.BlockPool().free[g] == v.BlockPool().free[g];
    assert u.BlockSpan(g) == w.BlockSpan(g) == v.BlockSpan(g);
    assert u.disk == v.disk;
    assert u.groups == v.groups;
  }

  lemma UnmarkMarkInode(v: Volume, i: nat)
    requires v.Valid() && v.InodePool().InRange(i) && !v.InodeUsed(i)
    ensures v.MarkInode(i).Valid() && v.MarkInode(i).UnmarkInode(i) == v
  {
    hide Pool.Valid, Pool.Used, Pool.MarkItem, Pool.UnmarkItem, Mark, Unmark;
    MarkInodeKeeps(v, i);
    UnmarkMarkItem(v.InodePool(), i);
    Split(v.InodePool(), i);
    var g := v.InodePool().Group(i);
    var w := v.MarkInode(i);
    var u := w.UnmarkInode(i);
    InodeMapStep(w, i);
    assert u.InodePool() == v.InodePool();
    assert u.InodePool().maps[g] == v.InodePool().maps[g];
    assert u.InodePool().free[g] == v.InodePool().free[g];
    assert u.InodeSpan(g) == w.InodeSpan(g) == v.InodeSpan(g);
    assert u.disk == v.disk;
    assert u.groups == v.groups;
  }
}
