/** When adding an entry, creating a file and creating a directory succeed, and the inode fields they leave. */
module Ext2Creation {
  import opened Arith
  import opened Bytes
  import opened Ext2Dir
  import opened Ext2File
  import opened Ext2Fs
  import opened Ext2Inode
  import opened Ext2Layout
  import opened Ext2Ops
  import opened Ext2Records
  import opened Ext2Volume

  // ----- room in a block -----

  /** Where records start, from o on. */
  function Starts(blk: Block, o: nat): (qs: seq<nat>)
    requires Tiled(blk, o)
    ensures forall q | q in qs :: q >= o && Record(blk, q)
    decreases |blk| - o
  {
    if o == |blk| then [] else [o] + Starts(blk, o + RecLen(blk, o))
  }

  /** The bytes of a record that it does not need for itself are enough. */
  predicate Spare(blk: Block, q: nat, need: nat) {
    Record(blk, q) && RecLen(blk, q) >= RealLen(blk, q) + need
  }

  ghost predicate Room(blk: Block, need: nat) {
    Tiled(blk, 0) && exists q :: q in Starts(blk, 0) && Spare(blk, q, need)
  }

  /** The scan stops at the first record with enough room, and only if there is none finds nothing. */
  lemma {:induction false} FitRecFirst(blk: Block, o: nat, need: nat)
    requires Tiled(blk, o)
    ensures FitRec(blk, o, need).Some? ==> FitRec(blk, o, need).value in Starts(blk, o) && Spare(blk, FitRec(blk, o, need).value, need)
    ensures forall q | q in Starts(blk, o) && Spare(blk, q, need) :: FitRec(blk, o, need).Some? && FitRec(blk, o, need).value <= q
    decreases |blk| - o
  {
    hide Record, RecLen, RealLen;
    if o < |blk| {
      RecordInside(blk, o);
      FitRecFirst(blk, o + RecLen(blk, o), need);
    }
  }

  lemma FitRecIff(blk: Block, need: nat)
    requires Tiled(blk, 0)
    ensures FitRec(blk, 0, need).Some? <==> Room(blk, need)
  {
    hide Tiled, Spare, FitRec;
    FitRecFirst(blk, 0, need);
  }

  /** Block fb of the directory has a record with room. */
  ghost predicate BlockRoom(s: Fs, img: Image, need: nat, fb: nat) {
    var b := FileBlock(s, img, fb);
    b != 0 && b in s.data && Room(s.data[b], need)
  }

  ghost predicate HasRoom(s: Fs, img: Image, need: nat) {
    exists fb: nat :: BlockRoom(s, img, need, fb)
  }

  /** The scan over the blocks stops at the first with room. */
  lemma {:induction false} FitBlockFirst(s: Fs, img: Image, need: nat, fb: nat, n: nat)
    requires s.blockSize > 0 && DirOk(s, img)
    ensures FitBlock(s, img, need, fb, n).Some? ==> BlockRoom(s, img, need, FitBlock(s, img, need, fb, n).value)
    ensures forall k: nat | fb <= k < n && BlockRoom(s, img, need, k) :: FitBlock(s, img, need, fb, n).Some? && FitBlock(s, img, need, fb, n).value <= k
    decreases n - fb
  {
    hide FileBlock, FitRec, Tiled, Room;
    if fb < n {
      assert DirBlockOk(s, img, fb);
      FitBlockFirst(s, img, need, fb + 1, n);
      if FileBlock(s, img, fb) != 0 {
        FitRecIff(s.data[FileBlock(s, img, fb)], need);
      }
    }
  }

  lemma FitBlockIff(s: Fs, img: Image, need: nat)
    requires s.blockSize > 0 && DirOk(s, img)
    ensures FitBlock(s, img, need, 0, Blocks(s, img)).Some? <==> HasRoom(s, img, need)
  {
    hide FileBlock, FitBlock, Room;
    FitBlockFirst(s, img, need, 0, Blocks(s, img));
    forall fb: nat | BlockRoom(s, img, need, fb) ensures fb < Blocks(s, img) {
      assert DirBlockOk(s, img, fb);
    }
  }

  // ----- free blocks and inodes -----

  function FreeBlocks(s: Fs): set<nat> {
    set b: nat | s.firstBlock <= b < s.blocksCount && b !in s.used
  }

  function FreeInodes(s: Fs): set<nat> {
    set i: nat | 1 <= i <= s.inodesCount && i !in s.live
  }

  lemma NewBlockIff(s: Fs)
    requires s.Shape()
    ensures s.NewBlock() != 0 <==> FreeBlocks(s) != {}
    ensures s.NewBlock() != 0 ==> s.NewBlock() in FreeBlocks(s)
  {
    FirstFreeBlockIs(s, s.firstBlock);
    if s.NewBlock() != 0 {
      assert s.NewBlock() in FreeBlocks(s);
    }
  }

  lemma NewInodeIff(s: Fs)
    requires s.Shape()
    ensures s.NewInode() != 0 <==> FreeInodes(s) != {}
  {
    FirstFreeInodeIs(s, 1);
    if s.NewInode() != 0 {
      assert s.NewInode() in FreeInodes(s);
    }
  }

  // ----- adding an entry -----

  /** The directory can still get a block behind its last one. */
  predicate CanGrow(s: Fs, img: Image) {
    FreeBlocks(s) != {} && Size(img) < 12 * s.blockSize
  }

  /** The inode after one more block: pointer, size and sector count. */
  predicate Grown(s: Fs, img: Image, img': Image) {
    && Size(img') == Size(img) + s.blockSize && Sectors(img') == (Sectors(img) + s.blockSize / 512) % TWO32
    && Links(img') == Links(img) && Mode(img') == Mode(img)
  }

  lemma GrownIs(s: Fs, img: Image, k: nat, b: nat)
    requires k < 12 && b < TWO32 && Size(img) + s.blockSize < TWO32
    ensures Grown(s, img, Extended(s, img, k, b)) && Ptr(Extended(s, img, k, b), k) == b
  {
    hide Get32, Put32, Get16, Ptr, Size, Mode, Links, Sectors, SetPtr, SetSectors, SetSize;
    ExtendedFields(s, img, k, b);
    var p := SetPtr(img, k, b);
    var a := SetSize(p, (Size(img) + s.blockSize) % TWO32);
    CountFieldsApart(img, k, b);
    CountFieldsApart(p, k, (Size(img) + s.blockSize) % TWO32);
    CountFieldsApart(a, k, (Sectors(a) + s.blockSize / 512) % TWO32);
  }

  /**
   An entry is added exactly if some record has room or a block can be appended; a block is appended
   only when no record has room.
   */
  lemma AddEntryIff(s: Fs, d: nat, ino: nat, name: seq<Byte>, kind: Byte)
    requires Parent(s, d) && ino < TWO32 && |name| < 256
    ensures s.Shape() && s.blockSize > 0 && d in s.inodes && DirOk(s, s.inodes[d])
    ensures var r, img := AddEntry(s, d, ino, name, kind), s.inodes[d];
      && (r.ok <==> HasRoom(s, img, Rounded(|name|)) || CanGrow(s, img))
      && (HasRoom(s, img, Rounded(|name|)) ==> r.s.used == s.used && r.s.inodes == s.inodes)
      && (r.ok && !HasRoom(s, img, Rounded(|name|)) ==> r.s.used == s.used + {s.NewBlock()} && d in r.s.inodes && Grown(s, img, r.s.inodes[d]))
  {
    hide DirOk, FitBlock, FitRec, FileBlock, InsertAt, PutRec, Extended, Blank, Size, Rounded, HasRoom, Grown, FreeBlocks, Fs.NewBlock, Tiled, IsDir, FullInv;
    ParentOk(s, d);
    ParentSize(s, d);
    var img := s.inodes[d];
    FitBlockIff(s, img, Rounded(|name|));
    NewBlockIff(s);
    DirSize(s, img);
    if FitBlock(s, img, Rounded(|name|), 0, Blocks(s, img)).None? && s.NewBlock() != 0 {
      SizeSlots(s, img);
      FreeSmall(s);
      if Size(img) / s.blockSize < 12 {
        GrownIs(s, img, Size(img) / s.blockSize, s.NewBlock());
      }
    }
  }

  lemma ParentSize(s: Fs, d: nat)
    requires Parent(s, d)
    ensures 1024 <= s.blockSize <= 32768
  {
    hide DirOk, IsDir, Inv;
    FullInvParts(s);
  }

  lemma FreeSmall(s: Fs)
    requires s.Shape() && s.NewBlock() != 0
    ensures s.NewBlock() < TWO32
  {
    FirstFreeBlockIs(s, s.firstBlock);
  }

  lemma SizeSlots(s: Fs, img: Image)
    requires 0 < s.blockSize <= 32768 && DirOk(s, img)
    ensures Size(img) / s.blockSize < 12 <==> Size(img) < 12 * s.blockSize
    ensures Size(img) < 12 * s.blockSize ==> Size(img) + s.blockSize < TWO32
  {
    hide DirBlockOk, Size, Blocks;
    DirSize(s, img);
    Slots(Blocks(s, img), s.blockSize);
  }

  lemma Slots(n: nat, size: nat)
    requires 0 < size <= 32768
    ensures n < 12 <==> n * size < 12 * size
    ensures n < 12 ==> n * size <= 11 * size
  {
    if n < 12 {
      MulMono(n, 11, size);
    } else {
      MulMono(12, n, size);
    }
  }

  // ----- creating -----

  /** Room depends on the directory's own blocks only. */
  lemma SameRoom(s: Fs, t: Fs, img: Image, need: nat)
    requires SameFile(s, t, img)
    ensures HasRoom(t, img, need) <==> HasRoom(s, img, need)
  {
    hide FileBlock, Room;
    forall fb: nat ensures BlockRoom(t, img, need, fb) <==> BlockRoom(s, img, need, fb) {
      assert SameBlockAt(s, t, img, fb);
    }
  }

  lemma ParentSame(s: Fs, t: Fs, i: nat, d: nat)
    requires OthersSame(s, t, i) && i != d && Parent(s, d)
    ensures d in s.inodes && SameFile(s, t, s.inodes[d])
  {
    hide SameFile, FullInv;
    DirManaged(s.inodes[d]);
  }

  /** A file is created exactly if an inode is free and its name finds room or a new block. */
  lemma CreateFileIff(s: Fs, d: nat, name: seq<Byte>, img: Image)
    requires Parent(s, d) && Empty(img) && 0 < |name| < 256
    ensures CreateFile(s, d, name, img).ok <==>
      FreeInodes(s) != {} && (HasRoom(s, s.inodes[d], Rounded(|name|)) || CanGrow(s, s.inodes[d]))
  {
    hide Parent, Empty, AddEntry, HasRoom, FreeInodes, Rounded, Fs.NewInode, DirOk, OthersSame, SameFile, Fs.Shape, Size;
    ParentOk(s, d);
    NewInodeIff(s);
    if s.NewInode() != 0 {
      TakeInodeKeeps(s, d, img);
      var i := s.NewInode();
      var t := s.TakeInode(i).PutInode(i, img);
      ParentSame(s, t, i, d);
      SameRoom(s, t, s.inodes[d], Rounded(|name|));
      AddEntryIff(t, d, i, name, 1);
      assert FreeBlocks(t) == FreeBlocks(s);
    }
  }

  /** A directory is created exactly if an inode and a block are free and its name finds room, or a second block. */
  lemma CreateDirIff(s: Fs, d: nat, name: seq<Byte>, img: Image)
    requires Parent(s, d) && Empty(img) && IsDir(img) && 0 < |name| < 256
    ensures CreateDir(s, d, name, img).ok <==>
      && FreeInodes(s) != {} && FreeBlocks(s) != {}
      && (HasRoom(s, s.inodes[d], Rounded(|name|)) || (|FreeBlocks(s)| >= 2 && Size(s.inodes[d]) < 12 * s.blockSize))
  {
    hide Parent, Empty, AddEntry, HasRoom, FreeInodes, FreeBlocks, Rounded, Fs.NewInode, Fs.NewBlock, DirOk, OthersSame, SameFile, Fs.Shape, Size, IsDir, Linked, NewDir, Grown;
    ParentOk(s, d);
    NewInodeIff(s);
    NewBlockIff(s);
    if s.NewInode() != 0 && s.NewBlock() != 0 {
      NewDirKeeps(s, d, img);
      var i := s.NewInode();
      var t := NewDir(s, i, s.NewBlock(), d, img);
      ParentSame(s, t, i, d);
      SameRoom(s, t, s.inodes[d], Rounded(|name|));
      NewDirSets(s, i, s.NewBlock(), d, img);
      AddEntryIff(t, d, i, name, 2);
      AddedInodes(t, d, i, name);
      OneLess(s, t, i, d, img);
    }
  }

  /** A directory created has one block and the links it was given, and its parent has one link more. */
  lemma CreateDirLinks(s: Fs, d: nat, name: seq<Byte>, img: Image)
    requires Parent(s, d) && Empty(img) && IsDir(img) && 0 < |name| < 256
    ensures var i, r := s.NewInode(), CreateDir(s, d, name, img);
      r.ok ==>
        && i in r.s.inodes && Grown(s, img, r.s.inodes[i]) && Ptr(r.s.inodes[i], 0) == s.NewBlock()
        && d in r.s.inodes && Links(r.s.inodes[d]) == (Links(s.inodes[d]) + 1) % 0x1_0000
  {
    hide Parent, Empty, AddEntry, HasRoom, FreeBlocks, Rounded, Fs.NewInode, Fs.NewBlock, DirOk, OthersSame, Fs.Shape, IsDir, Linked, NewDir, Links, Grown, Ptr;
    ParentOk(s, d);
    if s.NewInode() != 0 && s.NewBlock() != 0 {
      NewDirKeeps(s, d, img);
      var i := s.NewInode();
      var t := NewDir(s, i, s.NewBlock(), d, img);
      NewDirSets(s, i, s.NewBlock(), d, img);
      AddEntryIff(t, d, i, name, 2);
      AddedInodes(t, d, i, name);
      NewDirInode(s, d, img);
      var r := AddEntry(t, d, i, name, 2);
      if r.ok {
        LinkedLinks(r.s.inodes[d]);
        GrownLinks(t, t.inodes[d], r.s.inodes[d]);
      }
    }
  }

  lemma NewDirInode(s: Fs, d: nat, img: Image)
    requires Parent(s, d) && Empty(img) && IsDir(img) && s.NewInode() != 0 && s.NewBlock() != 0
    ensures 1024 <= s.blockSize <= 32768 && s.NewInode() < TWO32 && d < TWO32 && s.NewBlock() < TWO32
    ensures var r := NewDir(s, s.NewInode(), s.NewBlock(), d, img).inodes;
      s.NewInode() in r && Grown(s, img, r[s.NewInode()]) && Ptr(r[s.NewInode()], 0) == s.NewBlock()
  {
    hide Parent, Extended, Dots, Fs.NewBlock, Fs.NewInode, Grown, Size, Managed, IsDir;
    NewDirKeeps(s, d, img);
    GrownIs(s, img, 0, s.NewBlock());
  }

  /** Adding to d leaves inode i. */
  lemma AddedInodes(t: Fs, d: nat, i: nat, name: seq<Byte>)
    requires Parent(t, d) && i in t.inodes && i != d && 0 < |name| < 256
    ensures 0 < i < TWO32 && t.Shape() && t.blockSize > 0 && d in t.inodes && DirOk(t, t.inodes[d])
    ensures var r := AddEntry(t, d, i, name, 2); r.ok ==> d in r.s.inodes && i in r.s.inodes && r.s.inodes[i] == t.inodes[i]
  {
    hide FullInv, DirOk, AddEntry, IsDir, Inserted, Dir, SameFile, Managed;
    ParentOk(t, d);
    InodeNumber(t, i);
    AddEntryKeeps(t, d, i, name, 2);
  }

  lemma LinkedLinks(img: Image)
    ensures Links(Linked(img)) == (Links(img) + 1) % 0x1_0000
  {
    hide Links, SetLinks, SetPtr, SetSize, SetSectors, Sectors;
    CountFieldsApart(img, 0, (Links(img) + 1) % 0x1_0000);
  }

  lemma GrownLinks(s: Fs, img: Image, img': Image)
    ensures Grown(s, img, img') ==> Links(img') == Links(img)
  {
    hide Links, Sectors, Size, Mode;
  }

  lemma OneLess(s: Fs, t: Fs, i: nat, d: nat, img: Image)
    requires s.Shape() && s.NewBlock() != 0 && 1024 <= s.blockSize <= 32768 && i < TWO32 && d < TWO32 && s.NewBlock() < TWO32
    requires t == NewDir(s, i, s.NewBlock(), d, img)
    ensures t.blockSize == s.blockSize && (FreeBlocks(t) != {} <==> |FreeBlocks(s)| >= 2)
  {
    hide Extended, Dots, Fs.NewBlock, Fs.Shape;
    NewBlockIff(s);
    assert FreeBlocks(t) == FreeBlocks(s) - {s.NewBlock()};
    assert FreeBlocks(s) == FreeBlocks(t) + {s.NewBlock()};
    assert |FreeBlocks(t)| == |FreeBlocks(s)| - 1;
  }

  // ----- the inode of a deleted file -----

  lemma {:induction false} SlotsCleared(s: Fs, i: nat, k: nat)
    requires i in s.inodes && k <= 12
    ensures forall j | 0 <= j < 15 :: Ptr(FreeSlots(s, i, k).inodes[i], j) == if k <= j < 12 then 0 else Ptr(s.inodes[i], j)
    decreases 12 - k
  {
    hide Ptr, SetPtr;
    if k < 12 {
      PtrCleared(s.inodes[i], k);
      SlotsCleared(FreeSlot(s, i, k), i, k + 1);
    }
  }

  /** Deletion time 1, no size, links or sectors, no direct blocks; the indirect pointers stay. */
  lemma DeletedInode(s: Fs, d: nat, name: seq<Byte>, i: nat)
    requires Parent(s, d) && i != d && i in s.live && i in s.inodes && Managed(s.inodes[i])
    requires s.blockSize > 0 ==> Lookup(Dir(s, s.inodes[d]), name) != 0
    ensures i in DeleteFile(s, d, name, i).s.inodes
    ensures var img := DeleteFile(s, d, name, i).s.inodes[i];
      && Le32(img, 20) == 1 && Size(img) == 0 && Links(img) == 0 && Sectors(img) == 0
      && forall j | 0 <= j < 15 :: Ptr(img, j) == if j < 12 then 0 else Ptr(s.inodes[i], j)
  {
    hide FullInv, Managed, FreeSlots, Erased, RemoveEntry, OthersSame, Dir, Lookup, DirOk, IsDir, Ptr, Get16, Get32, Le16, Le32;
    DeleteFileKeeps(s, d, name, i);
    DropFileKeeps(s, i);
    var t := DropFile(s, i);
    OtherParent(s, t, i, d);
    ParentOk(t, d);
    RemoveEntryKeeps(t, d, name);
    SlotsCleared(s, i, 0);
    var img := FreeSlots(s, i, 0).inodes[i];
    ErasedFields(img);
    ErasedLayout(img);
    InodeLayout(Erased(img));
  }
}
