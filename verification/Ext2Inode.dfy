/** Inode slots: where an inode lies in its group's table, and reading and writing one slot. */
module Ext2Inode {
  import opened Arith
  import opened Bytes
  import opened Ext2Bitmap
  import opened Ext2Volume

  /** The 128 bytes of an on-disk inode. */
  type Image = s: seq<Byte> | |s| == 128 witness seq(128, _ => 0)

  function Mode(img: Image): nat { Get16(img, 0) }

  function Size(img: Image): nat { Get32(img, 4) }

  function Links(img: Image): nat { Get16(img, 26) }

  function Sectors(img: Image): nat { Get32(img, 28) }

  /** i_block[k] */
  function Ptr(img: Image, k: nat): nat
    requires k < 15
  {
    Get32(img, 40 + 4 * k)
  }

  /** The file type is the top hexadecimal digit of the mode. */
  predicate IsDir(img: Image) {
    Mode(img) / 0x1000 == 4
  }

  /** The driver's own test for a directory is the single bit 0x4000. */
  predicate PassesDirTest(img: Image) {
    Mode(img) / 0x4000 % 2 == 1
  }

  /** Of the file types that exist, directories pass it, and so do block devices (6) and sockets (12). */
  lemma DirTestIff(img: Image)
    requires Mode(img) / 0x1000 in {1, 2, 4, 6, 8, 10, 12}
    ensures PassesDirTest(img) <==> IsDir(img) || Mode(img) / 0x1000 == 6 || Mode(img) / 0x1000 == 12
  {
    assert Mode(img) / 0x4000 == Mode(img) / 0x1000 / 4;
  }

  predicate IsReg(img: Image) {
    Mode(img) / 0x1000 == 8
  }

  function SetPtr(img: Image, k: nat, b: nat): Image
    requires k < 15 && b < TWO32
  {
    Put32(img, 40 + 4 * k, b)
  }

  function SetSize(img: Image, n: nat): Image
    requires n < TWO32
  {
    Put32(img, 4, n)
  }

  function SetSectors(img: Image, n: nat): Image
    requires n < TWO32
  {
    Put32(img, 28, n)
  }

  function SetLinks(img: Image, n: nat): Image
    requires n < 0x1_0000
  {
    Put16(img, 26, n)
  }

  /** The fields of an inode do not overlap: setting one leaves the others. */
  lemma FieldsApart(img: Image, k: nat, b: nat, j: nat)
    requires k < 15 && j < 15 && b < TWO32
    ensures Ptr(SetPtr(img, k, b), j) == if j == k then b else Ptr(img, j)
    ensures Size(SetPtr(img, k, b)) == Size(img) && Mode(SetPtr(img, k, b)) == Mode(img)
    ensures Ptr(SetSize(img, b), j) == Ptr(img, j) && Size(SetSize(img, b)) == b && Mode(SetSize(img, b)) == Mode(img)
    ensures Ptr(SetSectors(img, b), j) == Ptr(img, j)
    ensures Size(SetSectors(img, b)) == Size(img) && Mode(SetSectors(img, b)) == Mode(img)
    ensures b < 0x1_0000 ==> Ptr(SetLinks(img, b), j) == Ptr(img, j)
    ensures b < 0x1_0000 ==> Size(SetLinks(img, b)) == Size(img) && Mode(SetLinks(img, b)) == Mode(img)
  {
    hide Get32, Put32, Get16, Put16;
    Put32Frame(img, 40 + 4 * k, b, 40 + 4 * j);
    Put32Frame(img, 40 + 4 * k, b, 4);
    Put32Frame(img, 40 + 4 * k, b, 0);
    Put32Frame(img, 4, b, 40 + 4 * j);
    Put32Frame(img, 4, b, 0);
    Put32Frame(img, 28, b, 40 + 4 * j);
    Put32Frame(img, 28, b, 4);
    Put32Frame(img, 28, b, 0);
    if b < 0x1_0000 {
      Put16Frame(img, 26, b, 40 + 4 * j);
      Put16Frame(img, 26, b, 4);
      Put16Frame(img, 26, b, 0);
    }
  }

  /** The same for the link count and the sector count. */
  lemma CountFieldsApart(img: Image, k: nat, b: nat)
    requires k < 15 && b < TWO32
    ensures Links(SetPtr(img, k, b)) == Links(img) && Sectors(SetPtr(img, k, b)) == Sectors(img)
    ensures Links(SetSize(img, b)) == Links(img) && Sectors(SetSize(img, b)) == Sectors(img)
    ensures Links(SetSectors(img, b)) == Links(img) && Sectors(SetSectors(img, b)) == b
    ensures b < 0x1_0000 ==> Links(SetLinks(img, b)) == b && Sectors(SetLinks(img, b)) == Sectors(img)
  {
    hide Get32, Put32, Get16, Put16;
    Put32Frame(img, 40 + 4 * k, b, 26);
    Put32Frame(img, 40 + 4 * k, b, 28);
    Put32Frame(img, 4, b, 26);
    Put32Frame(img, 4, b, 28);
    Put32Frame(img, 28, b, 26);
    if b < 0x1_0000 {
      Put16Frame(img, 26, b, 28);
    }
  }

  predicate ValidIno(v: Volume, i: nat) {
    0 < i <= v.inodesCount
  }

  function GroupOf(v: Volume, i: nat): nat
    requires ValidIno(v, i) && v.inodesPerGroup > 0
  {
    (i - 1) / v.inodesPerGroup
  }

  function IndexOf(v: Volume, i: nat): nat
    requires ValidIno(v, i) && v.inodesPerGroup > 0
  {
    (i - 1) % v.inodesPerGroup
  }

  /** Block of the table that holds slot idx, and the slot's offset there. */
  function SlotBlock(idx: nat, size: nat, blockSize: nat): nat
    requires blockSize > 0
  {
    idx * size / blockSize
  }

  function SlotOffset(idx: nat, size: nat, blockSize: nat): nat
    requires blockSize > 0
  {
    idx * size % blockSize
  }

  /** With m slots to a block, slot idx is number idx % m of block idx / m. */
  lemma SlotArith(idx: nat, size: nat, m: nat, blockSize: nat)
    requires blockSize > 0 && m * size == blockSize
    ensures m > 0 && size > 0
    ensures SlotBlock(idx, size, blockSize) == idx / m && SlotOffset(idx, size, blockSize) == idx % m * size
    ensures idx % m * size + size <= blockSize
  {
    var q, r := idx / m, idx % m;
    MulStep(r, m, size);
    assert idx * size == q * (m * size) + r * size by {
      assert idx == q * m + r;
      assert (q * m + r) * size == q * m * size + r * size;
      assert q * m * size == q * (m * size);
    }
    DivMod(q, r * size, m * size);
  }

  function InodeBlock(v: Volume, i: nat): nat
    requires v.Geometry() && ValidIno(v, i)
  {
    GroupBound(v, i);
    v.groups[GroupOf(v, i)].inodeTable + SlotBlock(IndexOf(v, i), v.inodeSize, v.blockSize)
  }

  function InodeOffset(v: Volume, i: nat): nat
    requires v.Geometry() && ValidIno(v, i)
  {
    SlotOffset(IndexOf(v, i), v.inodeSize, v.blockSize)
  }

  lemma GroupBound(v: Volume, i: nat)
    requires v.Geometry() && ValidIno(v, i)
    ensures GroupOf(v, i) < |v.groups| && IndexOf(v, i) < v.inodesPerGroup
    ensures v.InodeSpan(GroupOf(v, i)) > 0
    ensures i == 1 + GroupOf(v, i) * v.inodesPerGroup + IndexOf(v, i)
  {
    assert v.inodesCount <= |v.groups| * v.inodesPerGroup;
    hide Volume.Geometry;
    Split(v.InodePool(), i);
  }

  /** The slot lies inside one block of its group's inode table. */
  lemma SlotPlace(v: Volume, i: nat)
    requires v.Geometry() && v.Placed() && ValidIno(v, i)
    ensures v.InodesPerBlock() > 0
    ensures InodeOffset(v, i) == IndexOf(v, i) % v.InodesPerBlock() * v.inodeSize
    ensures InodeOffset(v, i) + v.inodeSize <= v.blockSize && 128 <= v.inodeSize
    ensures InodeBlock(v, i) < |v.disk| && |v.disk[InodeBlock(v, i)]| == v.blockSize
    ensures v.roles[InodeBlock(v, i)] == InodeTable(GroupOf(v, i), IndexOf(v, i) / v.InodesPerBlock())
  {
    var m, g, x := v.InodesPerBlock(), GroupOf(v, i), IndexOf(v, i);
    GroupBound(v, i);
    SlotArith(x, v.inodeSize, m, v.blockSize);
    DivMono(x, v.inodesPerGroup - 1, m);
    TableBlock(v, g, x / m);
    BlockLength(v, InodeBlock(v, i));
    hide Volume.Geometry, Volume.Placed, SlotBlock, SlotOffset, GroupOf, IndexOf, Volume.InodeSpan, Volume.InodesPerBlock;
  }

  lemma TableBlock(v: Volume, g: nat, k: nat)
    requires v.Placed() && g < |v.groups| && v.InodeSpan(g) > 0
    requires k <= (v.inodesPerGroup - 1) / v.InodesPerBlock()
    ensures v.groups[g].inodeTable + k < |v.disk| && v.roles[v.groups[g].inodeTable + k] == InodeTable(g, k)
  {
    hide Volume.InodeSpan, Volume.BlockSpan, Volume.InodesPerBlock;
    assert v.HasTable(g, k);
  }

  lemma BlockLength(v: Volume, b: nat)
    requires v.Geometry() && b < |v.disk|
    ensures |v.disk[b]| == v.blockSize
  {
  }

  lemma DivMono(a: nat, b: nat, m: nat)
    requires a <= b && m > 0
    ensures a / m <= b / m
  {
    if a / m > b / m {
      MulStep(b / m, a / m, m);
    }
  }

  function InodeAt(v: Volume, i: nat): Image
    requires v.Geometry() && v.Placed() && ValidIno(v, i)
  {
    SlotPlace(v, i);
    v.disk[InodeBlock(v, i)][InodeOffset(v, i)..InodeOffset(v, i) + 128]
  }

  function PutInode(v: Volume, i: nat, img: Image): Volume
    requires v.Geometry() && v.Placed() && ValidIno(v, i)
  {
    SlotPlace(v, i);
    var b := InodeBlock(v, i);
    v.WriteBlock(b, Splice(v.disk[b], InodeOffset(v, i), img))
  }

  /** The slots of different inodes share no byte. */
  lemma SlotsDisjoint(v: Volume, i: nat, j: nat)
    requires v.Geometry() && v.Placed() && ValidIno(v, i) && ValidIno(v, j) && i != j
    ensures InodeBlock(v, i) != InodeBlock(v, j)
         || InodeOffset(v, i) + 128 <= InodeOffset(v, j) || InodeOffset(v, j) + 128 <= InodeOffset(v, i)
  {
    SlotPlace(v, i);
    SlotPlace(v, j);
    GroupBound(v, i);
    GroupBound(v, j);
    hide InodeBlock, InodeOffset, GroupOf, IndexOf, Volume.Placed, Volume.Geometry;
    var m, x, y := v.InodesPerBlock(), IndexOf(v, i), IndexOf(v, j);
    if InodeBlock(v, i) == InodeBlock(v, j) {
      SameBlockApart(x, y, m);
      if x % m < y % m {
        MulStep(x % m, y % m, v.inodeSize);
      } else {
        MulStep(y % m, x % m, v.inodeSize);
      }
    }
  }

  lemma SameBlockApart(x: nat, y: nat, m: nat)
    requires m > 0 && x / m == y / m && x != y
    ensures x % m != y % m
  {
    assert x == m * (x / m) + x % m && y == m * (y / m) + y % m;
  }

  lemma PutInodeKeeps(v: Volume, i: nat, img: Image)
    requires v.Valid() && ValidIno(v, i)
    ensures PutInode(v, i, img).Valid() && SameLayout(v, PutInode(v, i, img))
    ensures PutInode(v, i, img).BlockPool() == v.BlockPool() && PutInode(v, i, img).InodePool() == v.InodePool()
    ensures forall b | 0 <= b < |v.disk| && !v.roles[b].InodeTable? :: PutInode(v, i, img).disk[b] == v.disk[b]
  {
    SlotPlace(v, i);
    var b := InodeBlock(v, i);
    var blk := Splice(v.disk[b], InodeOffset(v, i), img);
    WriteBlockKeeps(v, b, blk);
    WriteBlockPools(v, b, blk);
    hide Volume.Valid, Volume.Geometry, Volume.Placed, InodeBlock, InodeOffset, Volume.BlockPool, Volume.InodePool, Splice;
  }

  /** Same layout: an inode keeps its slot. */
  lemma SameSlot(v: Volume, w: Volume, i: nat)
    requires v.Geometry() && v.Placed() && SameLayout(v, w) && w.Geometry() && w.Placed() && ValidIno(v, i)
    ensures ValidIno(w, i) && InodeBlock(w, i) == InodeBlock(v, i) && InodeOffset(w, i) == InodeOffset(v, i)
    ensures InodeBlock(v, i) < |v.disk| == |w.disk|
    ensures w.disk[InodeBlock(v, i)] == v.disk[InodeBlock(v, i)] ==> InodeAt(w, i) == InodeAt(v, i)
  {
    GroupBound(v, i);
    SlotPlace(v, i);
    hide Volume.Geometry, Volume.Placed, SlotBlock, SlotOffset, GroupOf, IndexOf;
  }

  lemma InodeAtPut(v: Volume, i: nat, img: Image)
    requires v.Valid() && ValidIno(v, i)
    ensures PutInode(v, i, img).Valid() && ValidIno(PutInode(v, i, img), i) && InodeAt(PutInode(v, i, img), i) == img
  {
    hide Volume.Valid, Volume.Geometry, Volume.Placed, InodeBlock, InodeOffset, Volume.BlockPool, Volume.InodePool, ValidIno;
    ValidParts(v);
    var w := PutInode(v, i, img);
    PutInodeKeeps(v, i, img);
    ValidParts(w);
    SlotPlace(v, i);
    SameSlot(v, w, i);
  }

  lemma OtherInodeAtPut(v: Volume, i: nat, img: Image, j: nat)
    requires v.Valid() && ValidIno(v, i) && ValidIno(v, j) && i != j
    ensures PutInode(v, i, img).Valid() && ValidIno(PutInode(v, i, img), j) && InodeAt(PutInode(v, i, img), j) == InodeAt(v, j)
  {
    hide Volume.Valid, Volume.Geometry, Volume.Placed, InodeBlock, InodeOffset, Volume.BlockPool, Volume.InodePool, ValidIno, Splice;
    ValidParts(v);
    var w := PutInode(v, i, img);
    PutInodeKeeps(v, i, img);
    ValidParts(w);
    SlotPlace(v, i);
    SlotPlace(v, j);
    SameSlot(v, w, j);
    SlotsDisjoint(v, i, j);
    var b, o := InodeBlock(v, i), InodeOffset(v, i);
    if InodeBlock(v, j) == b {
      SpliceAt(v.disk[b], o, img);
      SliceSame(v.disk[b], w.disk[b], InodeOffset(v, j));
    }
  }

  lemma SliceSame(a: Block, b: Block, o: nat)
    requires |a| == |b| && o + 128 <= |a| && forall k | o <= k < o + 128 :: b[k] == a[k]
    ensures b[o..o + 128] == a[o..o + 128]
  {
  }

  /** Reading back: the written inode is what was written, and every other inode is what it was. */
  lemma InodeAfterPut(v: Volume, i: nat, img: Image, j: nat)
    requires v.Valid() && ValidIno(v, i) && ValidIno(v, j)
    ensures PutInode(v, i, img).Valid() && ValidIno(PutInode(v, i, img), j)
    ensures InodeAt(PutInode(v, i, img), j) == if j == i then img else InodeAt(v, j)
  {
    hide Volume.Valid, Volume.Geometry, Volume.Placed, PutInode, InodeAt, ValidIno;
    ValidParts(v);
    if i == j {
      InodeAtPut(v, i, img);
    } else {
      OtherInodeAtPut(v, i, img, j);
    }
  }
}
