/**
 What the upper half of the ext2 driver sees of a volume: which blocks and inodes are in use, the
 inode images, and the contents of the data blocks.
 */
module Ext2Fs {
  import opened Bytes
  import opened Ext2Bitmap
  import opened Ext2Inode
  import opened Ext2Volume

  datatype Fs = Fs(
    blockSize: nat, firstBlock: nat, blocksCount: nat, inodesCount: nat,
    used: set<nat>, live: set<nat>, inodes: map<nat, Image>, data: map<nat, Block>)
  {
    ghost predicate Shape() {
      && 1024 <= blockSize <= 32768 && blockSize % 1024 == 0
      && firstBlock < blocksCount < TWO32 && inodesCount < TWO32
      && (forall i: nat :: i in inodes <==> 0 < i <= inodesCount)
      && (forall i | i in live :: i in inodes)
      && (forall b | b in used :: firstBlock <= b < blocksCount)
      && (forall b | b in data :: |data[b]| == blockSize)
      && (forall b | b in data :: 0 < b < blocksCount)
      && (forall b: nat | firstBlock <= b < blocksCount && b !in used :: b in data)
    }

    /** The lowest free block from b on, or 0. */
    function FirstFreeBlock(b: nat): nat
      decreases blocksCount - b
    {
      if b >= blocksCount then 0 else if b in used then FirstFreeBlock(b + 1) else b
    }

    function NewBlock(): nat {
      FirstFreeBlock(firstBlock)
    }

    function FirstFreeInode(i: nat): nat
      decreases inodesCount - i
    {
      if i > inodesCount then 0 else if i in live then FirstFreeInode(i + 1) else i
    }

    function NewInode(): nat {
      FirstFreeInode(1)
    }

    function TakeBlock(b: nat): Fs { this.(used := used + {b}) }

    function DropBlock(b: nat): Fs { this.(used := used - {b}) }

    function TakeInode(i: nat): Fs { this.(live := live + {i}) }

    function DropInode(i: nat): Fs { this.(live := live - {i}) }

    function PutInode(i: nat, img: Image): Fs { this.(inodes := inodes[i := img]) }

    function PutData(b: nat, blk: Block): Fs { this.(data := data[b := blk]) }
  }

  /** What an allocation returns: a free data block, or 0 exactly when every block is in use. */
  lemma {:induction false} FirstFreeBlockIs(s: Fs, b: nat)
    requires s.Shape() && s.firstBlock <= b <= s.blocksCount
    ensures var r := s.FirstFreeBlock(b);
      && (r == 0 <==> forall x: nat | b <= x < s.blocksCount :: x in s.used)
      && (r != 0 ==> b <= r < s.blocksCount && r !in s.used && r in s.data)
    decreases s.blocksCount - b
  {
    if b < s.blocksCount && b in s.used {
      FirstFreeBlockIs(s, b + 1);
    } else if b < s.blocksCount {
      assert b in s.data;
    }
  }

  lemma {:induction false} FirstFreeInodeIs(s: Fs, i: nat)
    requires s.Shape() && 0 < i <= s.inodesCount + 1
    ensures var r := s.FirstFreeInode(i);
      && (r == 0 <==> forall x: nat | i <= x <= s.inodesCount :: x in s.live)
      && (r != 0 ==> i <= r <= s.inodesCount && r !in s.live)
    decreases s.inodesCount + 1 - i
  {
    if i <= s.inodesCount && i in s.live {
      FirstFreeInodeIs(s, i + 1);
    }
  }

  // ----- the view of a concrete volume -----

  function UsedBlocks(v: Volume): set<nat>
    requires v.BlockPool().Shape()
  {
    set b: nat | v.firstDataBlock <= b < v.blocksCount && v.BlockUsed(b)
  }

  function LiveInodes(v: Volume): set<nat>
    requires v.InodePool().Shape()
  {
    set i: nat | 0 < i <= v.inodesCount && v.InodeUsed(i)
  }

  function Inodes(v: Volume): map<nat, Image>
    requires v.Geometry() && v.Placed()
  {
    map i: nat | 0 < i <= v.inodesCount :: InodeAt(v, i)
  }

  function DataBlocks(v: Volume): map<nat, Block>
    requires |v.roles| == |v.disk|
  {
    map b: nat | b < |v.disk| && v.roles[b] == Data :: v.disk[b]
  }

  function Abs(v: Volume): Fs
    requires v.Geometry() && v.Placed() && v.BlockPool().Shape() && v.InodePool().Shape()
  {
    Fs(v.blockSize, v.firstDataBlock, v.blocksCount, v.inodesCount,
       UsedBlocks(v), LiveInodes(v), Inodes(v), DataBlocks(v))
  }

  lemma AbsShape(v: Volume)
    requires v.Valid()
    ensures Abs(v).Shape()
  {
    hide Pool.Used, Pool.Valid, InodeAt;
  }

  /** A change of bitmaps leaves every inode ... */
  lemma SameContentsInodes(v: Volume, w: Volume)
    requires v.Geometry() && v.Placed() && w.Geometry() && w.Placed() && SameContents(v, w)
    ensures Inodes(w) == Inodes(v)
  {
    hide Volume.Geometry, Volume.Placed, InodeBlock, InodeOffset, InodeAt;
    forall i | ValidIno(v, i) ensures InodeAt(w, i) == InodeAt(v, i) {
      SlotPlace(v, i);
      SameSlot(v, w, i);
    }
  }

  /** ... and every data block. */
  lemma SameContentsData(v: Volume, w: Volume)
    requires SameContents(v, w)
    ensures DataBlocks(w) == DataBlocks(v)
  {
  }

  lemma SamePoolSets(v: Volume, w: Volume)
    requires v.firstDataBlock == w.firstDataBlock && v.blocksCount == w.blocksCount && v.inodesCount == w.inodesCount
    ensures v.BlockPool().Shape() && w.BlockPool() == v.BlockPool() ==> UsedBlocks(w) == UsedBlocks(v)
    ensures v.InodePool().Shape() && w.InodePool() == v.InodePool() ==> LiveInodes(w) == LiveInodes(v)
  {
    hide Volume.BlockPool, Volume.InodePool;
  }

  lemma UsedBlocksStep(v: Volume, w: Volume, b: nat)
    requires v.BlockPool().Shape() && v.BlockPool().InRange(b) && v.firstDataBlock == w.firstDataBlock && v.blocksCount == w.blocksCount
    ensures w.BlockPool() == v.BlockPool().MarkItem(b) ==> w.BlockPool().Shape() && UsedBlocks(w) == UsedBlocks(v) + {b}
    ensures w.BlockPool() == v.BlockPool().UnmarkItem(b) ==> w.BlockPool().Shape() && UsedBlocks(w) == UsedBlocks(v) - {b}
  {
    hide Pool.Used, Pool.MarkItem, Pool.UnmarkItem, Pool.Shape;
    forall y: nat | v.BlockPool().InRange(y)
      ensures w.BlockPool() == v.BlockPool().MarkItem(b) ==> w.BlockPool().Shape() && (w.BlockUsed(y) <==> y == b || v.BlockUsed(y))
      ensures w.BlockPool() == v.BlockPool().UnmarkItem(b) ==> w.BlockPool().Shape() && (w.BlockUsed(y) <==> y != b && v.BlockUsed(y))
    {
      MarkUsed(v.BlockPool(), b, y);
    }
  }

  lemma LiveInodesStep(v: Volume, w: Volume, i: nat)
    requires v.InodePool().Shape() && v.InodePool().InRange(i) && v.inodesCount == w.inodesCount
    ensures w.InodePool() == v.InodePool().MarkItem(i) ==> w.InodePool().Shape() && LiveInodes(w) == LiveInodes(v) + {i}
    ensures w.InodePool() == v.InodePool().UnmarkItem(i) ==> w.InodePool().Shape() && LiveInodes(w) == LiveInodes(v) - {i}
  {
    hide Pool.Used, Pool.MarkItem, Pool.UnmarkItem, Pool.Shape;
    forall y: nat | v.InodePool().InRange(y)
      ensures w.InodePool() == v.InodePool().MarkItem(i) ==> w.InodePool().Shape() && (w.InodeUsed(y) <==> y == i || v.InodeUsed(y))
      ensures w.InodePool() == v.InodePool().UnmarkItem(i) ==> w.InodePool().Shape() && (w.InodeUsed(y) <==> y != i && v.InodeUsed(y))
    {
      MarkUsed(v.InodePool(), i, y);
    }
  }

  lemma AbsMarkBlock(v: Volume, b: nat)
    requires v.Valid() && v.BlockPool().InRange(b) && !v.BlockUsed(b)
    ensures v.MarkBlock(b).Valid() && Abs(v.MarkBlock(b)) == Abs(v).TakeBlock(b)
  {
    var w := v.MarkBlock(b);
    MarkBlockKeeps(v, b);
    SameContentsInodes(v, w);
    SameContentsData(v, w);
    SamePoolSets(v, w);
    UsedBlocksStep(v, w, b);
    hide Volume.Valid, Inodes, DataBlocks, LiveInodes, UsedBlocks, Volume.Geometry, Volume.Placed, Volume.MarkBlock;
  }

  lemma AbsUnmarkBlock(v: Volume, b: nat)
    requires v.Valid() && v.BlockPool().InRange(b) && v.BlockUsed(b) && v.roles[b] == Data
    ensures v.UnmarkBlock(b).Valid() && Abs(v.UnmarkBlock(b)) == Abs(v).DropBlock(b)
  {
    var w := v.UnmarkBlock(b);
    UnmarkBlockKeeps(v, b);
    SameContentsInodes(v, w);
    SameContentsData(v, w);
    SamePoolSets(v, w);
    UsedBlocksStep(v, w, b);
    hide Volume.Valid, Inodes, DataBlocks, LiveInodes, UsedBlocks, Volume.Geometry, Volume.Placed, Volume.UnmarkBlock;
  }

  lemma AbsMarkInode(v: Volume, i: nat)
    requires v.Valid() && v.InodePool().InRange(i) && !v.InodeUsed(i)
    ensures v.MarkInode(i).Valid() && Abs(v.MarkInode(i)) == Abs(v).TakeInode(i)
  {
    var w := v.MarkInode(i);
    MarkInodeKeeps(v, i);
    SameContentsInodes(v, w);
    SameContentsData(v, w);
    SamePoolSets(v, w);
    LiveInodesStep(v, w, i);
    hide Volume.Valid, Inodes, DataBlocks, LiveInodes, UsedBlocks, Volume.Geometry, Volume.Placed, Volume.MarkInode;
  }

  lemma AbsUnmarkInode(v: Volume, i: nat)
    requires v.Valid() && v.InodePool().InRange(i) && v.InodeUsed(i)
    ensures v.UnmarkInode(i).Valid() && Abs(v.UnmarkInode(i)) == Abs(v).DropInode(i)
  {
    var w := v.UnmarkInode(i);
    UnmarkInodeKeeps(v, i);
    SameContentsInodes(v, w);
    SameContentsData(v, w);
    SamePoolSets(v, w);
    LiveInodesStep(v, w, i);
    hide Volume.Valid, Inodes, DataBlocks, LiveInodes, UsedBlocks, Volume.Geometry, Volume.Placed, Volume.UnmarkInode;
  }

  lemma InodesAre(v: Volume)
    requires v.Geometry() && v.Placed()
    ensures forall i: nat :: i in Inodes(v) <==> 0 < i <= v.inodesCount
    ensures forall i | i in Inodes(v) :: Inodes(v)[i] == InodeAt(v, i)
  {
    hide InodeAt, Volume.Geometry, Volume.Placed;
  }

  lemma InodesAfterPut(v: Volume, i: nat, img: Image)
    requires v.Valid() && ValidIno(v, i)
    ensures Ext2Inode.PutInode(v, i, img).Valid() && Inodes(Ext2Inode.PutInode(v, i, img)) == Inodes(v)[i := img]
  {
    hide Volume.Geometry, Volume.Placed, Volume.BlockPool, Volume.InodePool, InodeAt, Inodes, Ext2Inode.PutInode, Pool.Valid;
    var w := Ext2Inode.PutInode(v, i, img);
    PutInodeKeeps(v, i, img);
    InodesAre(v);
    InodesAre(w);
    forall j | j in Inodes(v) ensures Inodes(w)[j] == Inodes(v)[i := img][j] {
      InodeAfterPut(v, i, img, j);
    }
  }

  lemma AbsPutInode(v: Volume, i: nat, img: Image)
    requires v.Valid() && ValidIno(v, i)
    ensures Ext2Inode.PutInode(v, i, img).Valid()
    ensures Abs(Ext2Inode.PutInode(v, i, img)) == Abs(v).PutInode(i, img)
  {
    var w := Ext2Inode.PutInode(v, i, img);
    PutInodeKeeps(v, i, img);
    InodesAfterPut(v, i, img);
    SamePoolSets(v, w);
    hide Volume.Valid, Volume.Geometry, Volume.Placed, Ext2Inode.PutInode, Volume.BlockPool, Volume.InodePool,
      UsedBlocks, LiveInodes, Inodes;
    assert DataBlocks(w) == DataBlocks(v);
  }

  lemma InodesAfterWrite(v: Volume, b: nat, blk: Block)
    requires v.Valid() && b < |v.disk| && v.roles[b] == Data && |blk| == v.blockSize
    ensures v.WriteBlock(b, blk).Valid() && Inodes(v.WriteBlock(b, blk)) == Inodes(v)
  {
    hide Volume.Geometry, Volume.Placed, Volume.BlockPool, Volume.InodePool, InodeBlock, InodeOffset, InodeAt, Inodes, Pool.Valid;
    var w := v.WriteBlock(b, blk);
    WriteBlockKeeps(v, b, blk);
    InodesAre(v);
    InodesAre(w);
    forall i | i in Inodes(v) ensures InodeAt(w, i) == InodeAt(v, i) {
      SlotPlace(v, i);
      SameSlot(v, w, i);
    }
  }

  lemma AbsWriteData(v: Volume, b: nat, blk: Block)
    requires v.Valid() && b < |v.disk| && v.roles[b] == Data && |blk| == v.blockSize
    ensures v.WriteBlock(b, blk).Valid() && Abs(v.WriteBlock(b, blk)) == Abs(v).PutData(b, blk)
  {
    var w := v.WriteBlock(b, blk);
    WriteBlockPools(v, b, blk);
    InodesAfterWrite(v, b, blk);
    SamePoolSets(v, w);
    hide Volume.Valid, Volume.Geometry, Volume.Placed, Volume.BlockPool, Volume.InodePool, UsedBlocks, LiveInodes, Inodes;
    assert DataBlocks(w) == DataBlocks(v)[b := blk];
  }

  /** The scan of the bitmaps and the scan of the sets find the same item. */
  lemma {:induction false} AbsFirstFreeBlock(v: Volume, b: nat)
    requires v.Valid() && v.firstDataBlock <= b <= v.blocksCount
    ensures Abs(v).FirstFreeBlock(b) == v.BlockPool().FirstFree(b)
    decreases v.blocksCount - b
  {
    hide Volume.Valid, Volume.Geometry, Volume.Placed, Pool.Used, Inodes, DataBlocks, LiveInodes;
    assert v.BlockPool().InRange(b) <==> b < v.blocksCount;
    if b < v.blocksCount {
      AbsFirstFreeBlock(v, b + 1);
    }
  }

  lemma {:induction false} AbsFirstFreeInode(v: Volume, i: nat)
    requires v.Valid() && 0 < i <= v.inodesCount + 1
    ensures Abs(v).FirstFreeInode(i) == v.InodePool().FirstFree(i)
    decreases v.inodesCount + 1 - i
  {
    hide Volume.Valid, Volume.Geometry, Volume.Placed, Pool.Used, Inodes, DataBlocks, UsedBlocks;
    assert v.InodePool().InRange(i) <==> i <= v.inodesCount;
    if i <= v.inodesCount {
      AbsFirstFreeInode(v, i + 1);
    }
  }
}
