/** The ext2 driver: allocators and inode slots on the mounted image, and the file operations above them. */
module Ext2Driver {
  import opened Arith
  import opened Bits
  import opened Bytes
  import opened Ext2Bitmap
  import opened Ext2Dir
  import opened Ext2File
  import opened Ext2Fs
  import opened Ext2Inode
  import opened Ext2Ops
  import opened Ext2Records
  import opened Ext2Volume

  /** The scan for the first clear bit: bytes in order, bits in order within a byte; -1 when there is none. */
  method FirstClearBit(bitmap: Block) returns (k: int)
    ensures -1 <= k < 8 * |bitmap|
    ensures k >= 0 ==> !Taken(bitmap, k) && forall j | 0 <= j < k :: Taken(bitmap, j)
    ensures k == -1 ==> forall j | 0 <= j < 8 * |bitmap| :: Taken(bitmap, j)
  {
    hide BitOf;
    for byte := 0 to |bitmap|
      invariant forall j | 0 <= j < 8 * byte :: Taken(bitmap, j)
    {
      if bitmap[byte] != 0xFF {
        for bit := 0 to 8
          invariant forall j | 0 <= j < 8 * byte + bit :: Taken(bitmap, j)
        {
          if !BitOf(bitmap[byte], bit) {
            return byte * 8 + bit;
          }
          assert Taken(bitmap, 8 * byte + bit);
        }
      } else {
        AllTaken(bitmap, byte);
      }
    }
    k := -1;
  }

  lemma AllTaken(bitmap: Block, byte: nat)
    requires byte < |bitmap| && bitmap[byte] == 0xFF
    ensures forall j | 8 * byte <= j < 8 * byte + 8 :: Taken(bitmap, j)
  {
    Pow2Values();
    forall j: nat | 8 * byte <= j < 8 * byte + 8 ensures Taken(bitmap, j) {
      FullWord(8, j - 8 * byte);
    }
  }

  /** The record loop of ext2_add_dir_entry over one block: offset of the first record with room, or -1. */
  method FitScan(blk: Block, need: nat) returns (o: int)
    requires Tiled(blk, 0)
    ensures FitRec(blk, 0, need) == if o < 0 then None else Some(o)
  {
    hide Record, RecLen, RealLen;
    var offset := 0;
    while offset < |blk|
      invariant 0 <= offset <= |blk| && Tiled(blk, offset) && FitRec(blk, 0, need) == FitRec(blk, offset, need)
    {
      RecordInside(blk, offset);
      if RecLen(blk, offset) - RealLen(blk, offset) >= need {
        return offset;
      }
      offset := offset + RecLen(blk, offset);
    }
    o := -1;
  }

  /** The record loop of ext2_find_in_dir and ext2_remove_dir_entry. */
  method FindScan(blk: Block, name: seq<Byte>) returns (o: int)
    requires Tiled(blk, 0)
    ensures FindRec(blk, 0, name) == if o < 0 then None else Some(o)
  {
    hide Record, RecLen, Matches;
    var offset := 0;
    while offset < |blk|
      invariant 0 <= offset <= |blk| && Tiled(blk, offset) && FindRec(blk, 0, name) == FindRec(blk, offset, name)
    {
      RecordInside(blk, offset);
      if Matches(blk, offset, name) {
        return offset;
      }
      offset := offset + RecLen(blk, offset);
    }
    o := -1;
  }

  class Ext2 {
    const blockSize: nat
    const blocksPerGroup: nat
    const inodesPerGroup: nat
    const firstDataBlock: nat
    const blocksCount: nat
    const inodesCount: nat
    const inodeSize: nat
    const bgd: array<GroupDesc>
    const disk: array<Block>
    ghost const roles: seq<Role>
    var freeBlocks: nat
    var freeInodes: nat

    ghost function Vol(): Volume
      reads this, bgd, disk
    {
      Volume(blockSize, blocksPerGroup, inodesPerGroup, firstDataBlock, blocksCount, inodesCount, inodeSize, roles,
             freeBlocks, freeInodes, bgd[..], disk[..])
    }

    ghost predicate Valid()
      reads this, bgd, disk
    {
      Vol().Valid()
    }

    /** The volume as the file operations see it. */
    ghost function View(): (s: Fs)
      requires Valid()
      reads this, bgd, disk
    {
      Abs(Vol())
    }

    // ----- allocators -----

    /** ext2_allocate_block */
    method AllocateBlock() returns (r: nat)
      requires Valid()
      modifies this, bgd, disk
      ensures Vol() == if r == 0 then old(Vol()) else TakenBlock(old(Vol()), r)
      ensures Valid() && r == old(View()).NewBlock()
      ensures View() == if r == 0 then old(View()) else old(View()).TakeBlock(r)
    {
      hide Volume.Valid, Pool.Valid, Volume.Geometry, Volume.Placed, Taken, Mark, Volume.BlockPool, Pool.Used, Abs,
        Volume.MarkBlock, Fs.NewBlock;
      ghost var v := Vol();
      ghost var p := v.BlockPool();
      BlockPoolFacts(v);
      r := 0;
      if freeBlocks == 0 {
        AllocateBlockView(v, r);
        return;
      }
      for g := 0 to bgd.Length
        invariant Vol() == v && r == 0 && GroupsFull(p, g)
      {
        BlockGroup(v, g);
        if bgd[g].freeBlocks > 0 {
          var bitmap := disk[bgd[g].blockBitmap];
          var k := FirstClearBit(bitmap);
          ClearBitInSpan(p, g, k);
          LowestItem(p, g, k);
          r := g * blocksPerGroup + k + firstDataBlock;
          disk[bgd[g].blockBitmap] := Mark(bitmap, k);
          bgd[g] := bgd[g].(freeBlocks := bgd[g].freeBlocks - 1);
          freeBlocks := freeBlocks - 1;
          MarkBlockIs(v, g, k);
          AllocateBlockView(v, r);
          return;
        } else {
          FullGroup(p, g);
        }
      }
      AllFull(p);
      AllocateBlockView(v, r);
    }

    /** ext2_free_block */
    method FreeBlock(b: nat)
      requires Valid()
      modifies this, bgd, disk
      ensures Vol() == if firstDataBlock <= b < blocksCount then GivenBackBlock(old(Vol()), b) else old(Vol())
      ensures b in old(View()).used && b in old(View()).data ==> Valid() && View() == old(View()).DropBlock(b)
    {
      hide Volume.Valid, Pool.Valid, Volume.Geometry, Volume.Placed, Taken, Unmark, Volume.BlockPool, Pool.Used, Abs,
        Volume.UnmarkBlock, Pool.Group, Pool.Index;
      ghost var v := Vol();
      FreeBlockView(v, b);
      if b < firstDataBlock || b >= blocksCount {
        return;
      }
      BlockPlace(v, b);
      var g := (b - firstDataBlock) / blocksPerGroup;
      var k := (b - firstDataBlock) % blocksPerGroup;
      var bitmap := disk[bgd[g].blockBitmap];
      disk[bgd[g].blockBitmap] := Unmark(bitmap, k);
      bgd[g] := bgd[g].(freeBlocks := bgd[g].freeBlocks + 1);
      freeBlocks := freeBlocks + 1;
      UnmarkBlockIs(v, b, g, k);
    }

    /** ext2_allocate_inode */
    method AllocateInode() returns (r: nat)
      requires Valid()
      modifies this, bgd, disk
      ensures Vol() == if r == 0 then old(Vol()) else TakenInode(old(Vol()), r)
      ensures Valid() && r == old(View()).NewInode()
      ensures View() == if r == 0 then old(View()) else old(View()).TakeInode(r)
    {
      hide Volume.Valid, Pool.Valid, Volume.Geometry, Volume.Placed, Taken, Mark, Volume.InodePool, Pool.Used, Abs,
        Volume.MarkInode, Fs.NewInode;
      ghost var v := Vol();
      ghost var p := v.InodePool();
      InodePoolFacts(v);
      r := 0;
      if freeInodes == 0 {
        AllocateInodeView(v, r);
        return;
      }
      for g := 0 to bgd.Length
        invariant Vol() == v && r == 0 && GroupsFull(p, g)
      {
        InodeGroup(v, g);
        if bgd[g].freeInodes > 0 {
          var bitmap := disk[bgd[g].inodeBitmap];
          var k := FirstClearBit(bitmap);
          ClearBitInSpan(p, g, k);
          LowestItem(p, g, k);
          r := g * inodesPerGroup + k + 1;
          disk[bgd[g].inodeBitmap] := Mark(bitmap, k);
          bgd[g] := bgd[g].(freeInodes := bgd[g].freeInodes - 1);
          freeInodes := freeInodes - 1;
          MarkInodeIs(v, g, k);
          AllocateInodeView(v, r);
          return;
        } else {
          FullGroup(p, g);
        }
      }
      AllFull(p);
      AllocateInodeView(v, r);
    }

    /** ext2_free_inode */
    method FreeInode(i: nat)
      requires Valid()
      modifies this, bgd, disk
      ensures Vol() == if 0 < i <= inodesCount then GivenBackInode(old(Vol()), i) else old(Vol())
      ensures i in old(View()).live ==> Valid() && View() == old(View()).DropInode(i)
    {
      hide Volume.Valid, Pool.Valid, Volume.Geometry, Volume.Placed, Taken, Unmark, Volume.InodePool, Pool.Used, Abs,
        Volume.UnmarkInode, Pool.Group, Pool.Index;
      ghost var v := Vol();
      FreeInodeView(v, i);
      if i == 0 || i > inodesCount {
        return;
      }
      InodePlace(v, i);
      var g := (i - 1) / inodesPerGroup;
      var k := (i - 1) % inodesPerGroup;
      var bitmap := disk[bgd[g].inodeBitmap];
      disk[bgd[g].inodeBitmap] := Unmark(bitmap, k);
      bgd[g] := bgd[g].(freeInodes := bgd[g].freeInodes + 1);
      freeInodes := freeInodes + 1;
      UnmarkInodeIs(v, i, g, k);
    }

    // ----- inode slots and data blocks -----

    /** ext2_read_inode */
    method ReadInode(i: nat) returns (r: int, img: Image)
      requires Valid()
      ensures r == if i in View().inodes then 0 else -1
      ensures r == 0 ==> img == View().inodes[i]
    {
      hide Volume.Valid, Volume.Geometry, Volume.Placed, Volume.BlockPool, Volume.InodePool, UsedBlocks, LiveInodes, DataBlocks;
      SlotFacts(Vol(), i);
      if i == 0 || i > inodesCount {
        return -1, seq(128, _ => 0);
      }
      var g := (i - 1) / inodesPerGroup;
      var index := (i - 1) % inodesPerGroup;
      var block := index * inodeSize / blockSize;
      var offset := index * inodeSize % blockSize;
      var buf := disk[bgd[g].inodeTable + block];
      return 0, buf[offset..offset + 128];
    }

    /** ext2_write_inode_sync */
    method WriteInode(i: nat, img: Image) returns (r: int)
      requires Valid()
      modifies disk
      ensures Valid() && r == if i in old(View()).inodes then 0 else -1
      ensures View() == if r == 0 then old(View()).PutInode(i, img) else old(View())
    {
      hide Volume.Valid, Volume.Geometry, Volume.Placed, Volume.BlockPool, Volume.InodePool, UsedBlocks, LiveInodes,
        DataBlocks, InodeAt;
      ghost var v := Vol();
      SlotFacts(v, i);
      if i == 0 || i > inodesCount {
        return -1;
      }
      var g := (i - 1) / inodesPerGroup;
      var index := (i - 1) % inodesPerGroup;
      var block := index * inodeSize / blockSize;
      var offset := index * inodeSize % blockSize;
      var buf := disk[bgd[g].inodeTable + block];
      buf := Splice(buf, offset, img);
      disk[bgd[g].inodeTable + block] := buf;
      AbsPutInode(v, i, img);
      assert Vol() == PutInode(v, i, img);
      return 0;
    }

    /** ext2_write_block on a data block */
    method WriteData(b: nat, blk: Block)
      requires Valid() && b in View().data && |blk| == blockSize
      modifies disk
      ensures Valid() && View() == old(View()).PutData(b, blk)
    {
      hide Volume.Valid, Volume.Geometry, Volume.Placed, Volume.BlockPool, Volume.InodePool, UsedBlocks, LiveInodes, Inodes;
      ghost var v := Vol();
      AbsWriteData(v, b, blk);
      disk[b] := blk;
      assert Vol() == v.WriteBlock(b, blk);
    }

    /** ext2_read_block on a data block */
    method ReadData(b: nat) returns (blk: Block)
      requires Valid() && b in View().data
      ensures blk == View().data[b] && |blk| == blockSize
    {
      hide Volume.BlockPool, Volume.InodePool, UsedBlocks, LiveInodes, Inodes, Volume.Placed;
      blk := disk[b];
    }

    /** ext2_get_file_block */
    method GetFileBlock(img: Image, fb: nat) returns (b: nat)
      requires Valid() && (Ptr(img, 12) != 0 ==> Ptr(img, 12) in View().data)
      ensures b == FileBlock(View(), img, fb)
    {
      hide Volume.Valid, Ptr, Get32, Volume.BlockPool, Volume.InodePool, UsedBlocks, LiveInodes, Inodes, DataBlocks;
      ViewShape(Vol());
      if fb < 12 {
        return Ptr(img, fb);
      }
      if fb < 12 + blockSize / 4 {
        var indirect := Ptr(img, 12);
        if indirect == 0 {
          return 0;
        }
        var buf := ReadData(indirect);
        return Get32(buf, 4 * (fb - 12));
      }
      return 0;
    }

    // ----- files -----

    /** ext2_read_file on a resolved inode. */
    method ReadFile(i: nat, buf: array<Byte>, size: nat, off: nat) returns (n: nat)
      requires Valid() && Inv(View()) && i in View().live && i in View().inodes && Managed(View().inodes[i])
      requires size <= buf.Length && size < TWO32 && off < TWO32
      requires off >= Size(View().inodes[i]) || off + size < TWO32
      modifies buf
      ensures Valid() && View() == old(View())
      ensures View().blockSize > 0 && n == ToRead(size, off, Size(View().inodes[i]))
      ensures n <= size && (n > 0 ==> off + n <= Size(View().inodes[i]))
      ensures n > 0 ==> buf[..n] == Content(View(), View().inodes[i])[off..off + n]
      ensures buf[n..] == old(buf[n..])
    {
      hide Abs, Volume.Valid, Inv, Sound, Managed, Size, FileBlock, BlockNo, BlockAt, Content, FileByte, Owns, Blank, Ptr,
        TailsZero, Fs.Shape, Min;
      ghost var s := View();
      InvParts(s);
      IndirectPresent(s, i);
      var r, img := ReadInode(i);
      n := 0;
      if off >= Size(img) {
        return;
      }
      var toRead := size;
      if (off + size) % TWO32 > Size(img) {
        toRead := Size(img) - off;
      }
      ViewShape(Vol());
      while n < toRead
        invariant 0 <= n <= toRead && View() == s && Valid()
        invariant forall p | off <= p < off + n :: buf[p - off] == FileByte(s, img, p)
        invariant buf[toRead..] == old(buf[toRead..])
      {
        var cur := off + n;
        var fb := BlockNo(cur, blockSize);
        var at := BlockAt(cur, blockSize);
        var pb := GetFileBlock(img, fb);
        var blk := Blank(blockSize);
        if pb != 0 {
          FileBlockPresent(s, i, fb);
          blk := ReadData(pb);
        }
        var chunk := blockSize - at;
        if chunk > toRead - n {
          chunk := toRead - n;
        }
        BlockBytes(s, img, cur, blk, chunk);
        forall k | 0 <= k < chunk {
          buf[n + k] := blk[at + k];
        }
        n := n + chunk;
      }
      ContentIs(s, img);
      assert buf[..n] == Content(s, img)[off..off + n];
    }

    /**
     The block the write loop is to fill: the one the file has, with its present contents, or a new
     one; none when the volume is full or no direct pointer reaches there.
     */
    method BlockToWrite(img: Image, fb: nat) returns (ok: bool, img': Image, pb: nat, buf: Block)
      requires Valid() && (Ptr(img, 12) != 0 ==> Ptr(img, 12) in View().data)
      requires FileBlock(View(), img, fb) != 0 ==> FileBlock(View(), img, fb) in View().data
      modifies this, bgd, disk
      ensures Valid() && ok == !Unfillable(old(View()), img, fb) && (!ok ==> View() == old(View()) && img' == img)
      ensures ok ==> Prepared(old(View()), View(), img, img', fb, pb, buf)
    {
      hide Abs, Volume.Valid, Fs.NewBlock, FileBlock, Attach, SetPtr, SetSectors, Sectors, Ptr, Blank;
      ghost var was := View();
      ViewShape(Vol());
      img' := img;
      pb := GetFileBlock(img, fb);
      buf := Blank(blockSize);
      ok := true;
      if pb == 0 {
        pb := AllocateBlock();
        if pb == 0 {
          ok := false;
          return;
        }
        NewBlockData(was);
        if fb < 12 {
          img' := SetPtr(img, fb, pb);
          img' := SetSectors(img', (Sectors(img') + blockSize / 512) % TWO32);
          AttachIs(was, img, fb, pb);
        } else {
          FreeBlock(pb);
          ok := false;
        }
      } else {
        buf := ReadData(pb);
      }
    }

    /** ext2_write_file on a resolved inode the caller may write. */
    method WriteFile(i: nat, data: seq<Byte>, off: nat) returns (n: nat)
      requires Valid() && Sound(View()) && i in View().live && i in View().inodes && Managed(View().inodes[i])
      requires off + |data| < TWO32
      modifies this, bgd, disk
      ensures Valid() && old(View()).Shape()
      ensures View() == Ext2File.WriteFile(old(View()), i, data, off).s
      ensures n == Ext2File.WriteFile(old(View()), i, data, off).n
    {
      hide Abs, Volume.Valid, Sound, Managed, WriteLoop, WriteStep, Loop, Prepared, Unfillable, Ext2File.WriteFile, BlockNo,
        BlockAt, FileBlock, Splice, Blank, SetSize, Size, Ptr;
      ghost var s := View();
      SoundShape(s);
      var r, img := ReadInode(i);
      n := 0;
      // c is the volume as it will be once img is written back.
      ghost var c := s;
      LoopStarts(s, i, img, data, off);
      while n < |data|
        invariant 0 <= n <= |data| && Valid() && s.Shape() && i in s.inodes
        invariant Loop(s, c, View(), i, img, data, off, n)
      {
        ViewShape(Vol());
        var fb, at := BlockNo(off + n, blockSize), BlockAt(off + n, blockSize);
        ghost var was, img0 := View(), img;
        LoopBlocks(s, c, was, i, img, data, off, n, fb);
        var ok, pb, buf;
        ok, img, pb, buf := BlockToWrite(img, fb);
        if !ok {
          StepStops(s, c, was, i, img0, data, off, n);
          break;
        }
        var chunk := blockSize - at;
        if chunk > |data| - n {
          chunk := |data| - n;
        }
        PreparedData(was, View(), img0, img, fb, pb, buf);
        ghost var t := View();
        buf := Splice(buf, at, data[n..n + chunk]);
        WriteData(pb, buf);
        c := StepGoes(s, c, was, t, i, img0, img, data, off, n, chunk, fb, at, pb, buf);
        n := n + chunk;
      }
      if n == |data| {
        LoopEnds(s, c, View(), i, img, data, off, n);
      }
      WriteFileEnds(s, c, View(), i, img, data, off, n);
      if off + n > Size(img) {
        img := SetSize(img, off + n);
      }
      r := WriteInode(i, img);
    }

    // ----- directories -----

    /** ext2_find_in_dir on inode d: an inode that fails the driver's test is refused, a directory is searched. */
    method FindInDir(d: nat, img: Image, name: seq<Byte>) returns (r: int, ino: nat, out: Image)
      requires Valid() && (PassesDirTest(img) ==> Parent(View(), d) && img == View().inodes[d])
      ensures !PassesDirTest(img) ==> r == -1
      ensures PassesDirTest(img) ==> View().blockSize > 0 && ino == Lookup(Dir(View(), img), name)
      ensures PassesDirTest(img) ==> r == if ino in View().inodes then 0 else -1
      ensures PassesDirTest(img) && r == 0 ==> out == View().inodes[ino]
    {
      hide Abs, Volume.Valid, Parent, FileBlock, Tiled, FindRec, DirOk, Blocks, Lookup, Dir, Ino, Ptr, Find;
      if Mode(img) / 0x4000 % 2 == 0 {
        r, ino, out := -1, 0, img;
        return;
      }
      ghost var s := View();
      DirFacts(s, d);
      ViewShape(Vol());
      var blocks := BlockCount(img);
      FindDir(s, img, name);
      var b := 0;
      while b < blocks
        invariant 0 <= b <= blocks && Find(s, img, name, 0, blocks) == Find(s, img, name, b, blocks)
      {
        DirBlockFacts(s, d, b);
        var pblock := GetFileBlock(img, b);
        FindNext(s, img, name, b, blocks);
        if pblock != 0 {
          var buf := ReadData(pblock);
          var o := FindScan(buf, name);
          if o >= 0 {
            ino := Ino(buf, o);
            r, out := ReadInode(ino);
            return;
          }
        }
        b := b + 1;
      }
      FindNext(s, img, name, b, blocks);
      ino := 0;
      r, out := ReadInode(0);
    }

    /** The number of blocks a directory scan visits. */
    method BlockCount(img: Image) returns (n: nat)
      requires Valid()
      ensures View().blockSize > 0 && n == Blocks(View(), img)
    {
      hide Abs, Volume.Valid, Size;
      ViewShape(Vol());
      n := Size(img) / blockSize + if Size(img) % blockSize != 0 then 1 else 0;
    }

    /** ext2_append_block on the inode of directory d; 0 stands for both of its failures. */
    method AppendBlock(d: nat, img: Image) returns (nb: nat, img': Image)
      requires Valid() && d in View().inodes && img == View().inodes[d]
      modifies this, bgd, disk
      ensures Valid() && Appended(old(View()), View(), d, img, img', nb)
    {
      hide Abs, Volume.Valid, Fs.NewBlock, SetPtr, SetSectors, SetSize, Sectors, Size, Blank, Extended, Appended,
        BlockNo;
      ghost var was := View();
      ViewShape(Vol());
      img' := img;
      nb := AllocateBlock();
      AppendedNone(was, d, img);
      if nb == 0 {
        return;
      }
      NewBlockData(was);
      WriteData(nb, Blank(blockSize));
      var index := BlockNo(Size(img), blockSize);
      if index >= 12 {
        FreeBlock(nb);
        AppendedFar(was, d, img, nb);
        nb := 0;
        return;
      }
      img' := SetPtr(img, index, nb);
      img' := SetSize(img', (Size(img) + blockSize) % TWO32);
      img' := SetSectors(img', (Sectors(img') + blockSize / 512) % TWO32);
      AppendedDone(was, d, img, index, nb);
      var r := WriteInode(d, img');
    }

    /** ext2_add_dir_entry on the inode of directory d. */
    method AddDirEntry(d: nat, img: Image, ino: nat, name: seq<Byte>, kind: Byte) returns (ok: bool, img': Image)
      requires Valid() && Parent(View(), d) && img == View().inodes[d]
      requires 0 < ino < TWO32 && 0 < |name| < 256
      modifies this, bgd, disk
      ensures Valid() && d in View().inodes && img' == View().inodes[d]
      ensures AddedBy(old(View()), d, ino, name, kind, View(), ok)
    {
      hide Abs, Volume.Valid, Parent, FileBlock, Tiled, FitRec, DirOk, Blocks, Ptr, FitBlock, InsertAt, PutRec, Rounded,
        Appended, AddedBy;
      ghost var s := View();
      DirFacts(s, d);
      ViewShape(Vol());
      var need := Rounded(|name|);
      var blocks := BlockCount(img);
      img' := img;
      var b := 0;
      while b < blocks
        invariant 0 <= b <= blocks && Valid() && View() == s
        invariant FitBlock(s, img, need, 0, blocks) == FitBlock(s, img, need, b, blocks)
      {
        DirBlockFacts(s, d, b);
        var pblock := GetFileBlock(img, b);
        FitNext(s, img, need, b, blocks);
        if pblock != 0 {
          var buf := ReadData(pblock);
          var o := FitScan(buf, need);
          if o >= 0 {
            buf := InsertAt(buf, o, ino, name, kind);
            WriteData(pblock, buf);
            AddedInBlock(s, d, ino, name, kind, b, o);
            return true, img;
          }
        }
        b := b + 1;
      }
      FitNext(s, img, need, b, blocks);
      var nb;
      nb, img' := AppendBlock(d, img);
      AppendedFacts(s, View(), d, img, img', nb);
      if nb != 0 {
        AddedAtEnd(s, View(), d, img', ino, name, kind, nb);
        WriteData(nb, PutRec(Blank(blockSize), 0, ino, blockSize, name, kind));
        return true, img';
      }
      AddedNot(s, View(), d, img, img', ino, name, kind);
      ok := false;
    }

    /** ext2_remove_dir_entry on the inode of directory d. */
    method RemoveDirEntry(d: nat, img: Image, name: seq<Byte>) returns (ok: bool)
      requires Valid() && Parent(View(), d) && img == View().inodes[d]
      modifies disk
      ensures Valid() && old(View()).blockSize > 0 && DirOk(old(View()), img)
      ensures RemoveEntry(old(View()), d, name) == Added(View(), ok)
    {
      hide Abs, Volume.Valid, Parent, FileBlock, Tiled, FindRec, DirOk, Blocks, Ptr, FindBlock, ClearAt, RemoveEntry;
      ghost var s := View();
      DirFacts(s, d);
      ViewShape(Vol());
      var blocks := BlockCount(img);
      var b := 0;
      while b < blocks
        invariant 0 <= b <= blocks && Valid() && View() == s
        invariant FindBlock(s, img, name, 0, blocks) == FindBlock(s, img, name, b, blocks)
      {
        DirBlockFacts(s, d, b);
        var pblock := GetFileBlock(img, b);
        FindBlockNext(s, img, name, b, blocks);
        if pblock != 0 {
          var buf := ReadData(pblock);
          var o := FindScan(buf, name);
          if o >= 0 {
            buf := ClearAt(buf, o);
            WriteData(pblock, buf);
            RemovedInBlock(s, d, name, b, o);
            return true;
          }
        }
        b := b + 1;
      }
      FindBlockNext(s, img, name, b, blocks);
      RemovedNot(s, d, name);
      ok := false;
    }

    // ----- creating and deleting -----

    /** ext2_create_file below directory d, with the mode already masked. */
    method CreateFile(d: nat, name: seq<Byte>, mode: nat, uid: nat, gid: nat) returns (ok: bool)
      requires Valid() && Parent(View(), d) && 0 < |name| < 256
      requires mode / 0x1000 == 8 && uid < 0x1_0000 && gid < 0x1_0000
      modifies this, bgd, disk
      ensures Valid() && Empty(FreshInode(mode, uid, gid, 1))
      ensures Ext2Ops.CreateFile(old(View()), d, name, FreshInode(mode, uid, gid, 1)) == Added(View(), ok)
    {
      hide Abs, Volume.Valid, Parent, Fs.NewInode, FreshInode, Empty, AddedBy, DirOk, AddEntry, Ext2Ops.CreateFile, OthersSame;
      ghost var s := View();
      ParentIs(s, d);
      FreshIsEmpty(mode, uid, gid, 1);
      var r, parent := ReadInode(d);
      var new_inode := FreshInode(mode, uid, gid, 1);
      var i := AllocateInode();
      if i == 0 {
        CreateFileIs(s, s, d, name, new_inode, s, false);
        return false;
      }
      NewInodeData(s, d, new_inode);
      r := WriteInode(i, new_inode);
      ghost var t := View();
      ok, parent := AddDirEntry(d, parent, i, name, 1);
      ghost var u := View();
      CreateFileIs(s, t, d, name, new_inode, u, ok);
      if !ok {
        LiveStays(t, d, i, name, u);
        FreeInode(i);
      }
    }

    /** The part of ext2_create_dir that fills in the new inode i and its first block. */
    method FirstBlock(mode: nat, uid: nat, gid: nat, i: nat, block: nat, d: nat)
      requires Valid() && i in View().inodes && block in View().data && i < TWO32 && d < TWO32 && block < TWO32
      requires mode < 0x1_0000 && uid < 0x1_0000 && gid < 0x1_0000 && 1024 <= View().blockSize <= 32768
      modifies disk
      ensures Valid()
      ensures View() == old(View()).PutInode(i, Extended(old(View()), FreshInode(mode, uid, gid, 2), 0, block))
                                   .PutData(block, Dots(old(View()).blockSize, i, d))
    {
      hide Abs, Volume.Valid, FreshInode, Dots, SetPtr, SetSize, SetSectors, Extended;
      ghost var s := View();
      ViewShape(Vol());
      var new_inode := FreshInode(mode, uid, gid, 2);
      new_inode := SetPtr(new_inode, 0, block);
      new_inode := SetSize(new_inode, blockSize);
      new_inode := SetSectors(new_inode, blockSize / 512);
      FirstBlockIs(s, mode, uid, gid, block);
      var r := WriteInode(i, new_inode);
      WriteData(block, Dots(blockSize, i, d));
    }

    /** ext2_create_dir below directory d, with the mode already masked. */
    method CreateDir(d: nat, name: seq<Byte>, mode: nat, uid: nat, gid: nat) returns (ok: bool)
      requires Valid() && Parent(View(), d) && 0 < |name| < 256
      requires mode / 0x1000 == 4 && uid < 0x1_0000 && gid < 0x1_0000
      modifies this, bgd, disk
      ensures Valid() && Empty(FreshInode(mode, uid, gid, 2)) && IsDir(FreshInode(mode, uid, gid, 2))
      ensures Ext2Ops.CreateDir(old(View()), d, name, FreshInode(mode, uid, gid, 2)) == Added(View(), ok)
    {
      hide Abs, Volume.Valid, Parent, Fs.NewInode, Fs.NewBlock, FreshInode, Empty, AddedBy, DirOk, AddEntry, Ext2Ops.CreateDir,
        OthersSame, IsDir, Dots, Linked, NewDir, Extended, TakenBlock, TakenInode, GivenBackInode, Managed, Links, SetLinks;
      ghost var s := View();
      ParentIs(s, d);
      FreshIsEmpty(mode, uid, gid, 2);
      var r, parent := ReadInode(d);
      ghost var img := FreshInode(mode, uid, gid, 2);
      var i := AllocateInode();
      if i == 0 {
        CreateDirFails(s, d, name, img);
        return false;
      }
      ghost var s1 := View();
      NewBlockSame(s, s1);
      var block := AllocateBlock();
      if block == 0 {
        NewInodeUnused(s, d, img);
        FreeInode(i);
        CreateDirFails(s, d, name, img);
        return false;
      }
      NewDirData(s, d, img);
      FirstBlock(mode, uid, gid, i, block, d);
      NewDirIs(s, View(), i, block, d, img);
      ghost var t := View();
      ok, parent := AddDirEntry(d, parent, i, name, 2);
      CreateDirIs(s, t, d, name, img, View(), ok);
      if !ok {
        return;
      }
      parent := Linked(parent);
      r := WriteInode(d, parent);
    }

    /** ext2_delete_file on regular file i, which directory d names `name`. */
    method DeleteFile(d: nat, name: seq<Byte>, i: nat) returns (ok: bool)
      requires Valid() && Parent(View(), d) && i in View().live && i in View().inodes && IsReg(View().inodes[i])
      modifies this, bgd, disk
      ensures Valid() && i != d && Managed(old(View()).inodes[i])
      ensures Ext2Ops.DeleteFile(old(View()), d, name, i) == Added(View(), ok)
    {
      hide Abs, Volume.Valid, Parent, FreeSlots, FreeSlot, DirOk, RemoveEntry, Ext2Ops.DeleteFile, DropFile, Erased, Sound,
        Managed, IsReg, Ptr, SetPtr, OthersSame;
      ghost var s := View();
      ParentIs(s, d);
      DeleteStarts(s, d, i);
      var r, parent := ReadInode(d);
      var target;
      r, target := ReadInode(i);
      // c is the volume as it will be once target is written back.
      ghost var c := s;
      var k := 0;
      assert s.PutInode(i, target) == s;
      while k < 12
        invariant 0 <= k <= 12 && Valid() && Freeing(s, c, View(), i, target, k)
      {
        FreeingStep(s, c, View(), i, target, k);
        if Ptr(target, k) != 0 {
          FreeBlock(Ptr(target, k));
          target := SetPtr(target, k, 0);
        }
        c := FreeSlot(c, i, k);
        k := k + 1;
      }
      target := Erased(target);
      FreeingEnds(s, c, View(), d, i, target);
      r := WriteInode(i, target);
      FreeInode(i);
      ok := RemoveDirEntry(d, parent, name);
      DeleteIs(s, d, name, i);
    }
  }

  /** The state after allocating or freeing, with the side condition of MarkBlock and UnmarkBlock met. */
  ghost function TakenBlock(v: Volume, b: nat): Volume {
    if v.BlockPool().Shape() && v.BlockPool().InRange(b) then v.MarkBlock(b) else v
  }

  ghost function GivenBackBlock(v: Volume, b: nat): Volume {
    if v.BlockPool().Shape() && v.BlockPool().InRange(b) then v.UnmarkBlock(b) else v
  }

  lemma AllocateBlockView(v: Volume, r: nat)
    requires v.Valid() && v.BlockPool().Shape() && r == v.BlockPool().FirstFree(v.firstDataBlock)
    ensures r == Abs(v).NewBlock()
    ensures r != 0 ==> TakenBlock(v, r).Valid() && Abs(TakenBlock(v, r)) == Abs(v).TakeBlock(r)
  {
    hide Volume.Valid, Volume.Geometry, Volume.Placed, Volume.MarkBlock, Pool.Used, Inodes, DataBlocks, UsedBlocks, LiveInodes;
    BlockPoolFacts(v);
    FirstFreeIs(v.BlockPool(), v.firstDataBlock);
    AbsFirstFreeBlock(v, v.firstDataBlock);
    if r != 0 {
      AbsMarkBlock(v, r);
    }
  }

  lemma FreeBlockView(v: Volume, b: nat)
    requires v.Valid()
    ensures v.firstDataBlock <= b < v.blocksCount <==> v.BlockPool().InRange(b)
    ensures v.BlockPool().Shape()
    ensures b in Abs(v).used && b in Abs(v).data ==>
              GivenBackBlock(v, b).Valid() && Abs(GivenBackBlock(v, b)) == Abs(v).DropBlock(b)
  {
    hide Volume.Geometry, Volume.Placed, Volume.UnmarkBlock, Pool.Used, Inodes, LiveInodes;
    if b in Abs(v).used && b in Abs(v).data {
      AbsUnmarkBlock(v, b);
    }
  }

  /** Group and bit of a block are in bounds. */
  lemma BlockPlace(v: Volume, b: nat)
    requires v.Valid() && v.firstDataBlock <= b < v.blocksCount
    ensures v.blocksPerGroup > 0 && v.BlockPool().Shape() && v.BlockPool().InRange(b)
    ensures var g, k := (b - v.firstDataBlock) / v.blocksPerGroup, (b - v.firstDataBlock) % v.blocksPerGroup;
      && g < |v.groups| && g == v.BlockPool().Group(b) && k == v.BlockPool().Index(b)
      && v.groups[g].blockBitmap < |v.disk| && v.BlockPool().maps[g] == v.disk[v.groups[g].blockBitmap]
      && k < 8 * |v.disk[v.groups[g].blockBitmap]|
  {
    hide Zeros, Taken;
    Split(v.BlockPool(), b);
    assert v.BlockPool().maps[v.BlockPool().Group(b)] == v.BlockMap(v.BlockPool().Group(b));
  }

  lemma UnmarkBlockIs(v: Volume, b: nat, g: nat, k: nat)
    requires v.Valid() && v.BlockPool().Shape() && v.BlockPool().InRange(b) && g < |v.groups|
    requires g == v.BlockPool().Group(b) && k == v.BlockPool().Index(b)
    requires v.groups[g].blockBitmap < |v.disk| && v.BlockPool().maps[g] == v.disk[v.groups[g].blockBitmap]
    requires k < 8 * |v.disk[v.groups[g].blockBitmap]|
    ensures v.UnmarkBlock(b)
         == v.(disk := v.disk[v.groups[g].blockBitmap := Unmark(v.disk[v.groups[g].blockBitmap], k)],
               groups := v.groups[g := v.groups[g].(freeBlocks := v.groups[g].freeBlocks + 1)],
               freeBlocks := v.freeBlocks + 1)
  {
    hide Volume.Valid, Volume.Geometry, Volume.Placed, Volume.BlockPool, Pool.Group, Pool.Index, Pool.Valid, Unmark, Taken;
    BlockPoolFacts(v);
    BlockGroup(v, g);
  }

  lemma BlockPoolFacts(v: Volume)
    requires v.Valid()
    ensures v.BlockPool().Valid() && v.BlockPool().Shape() && v.firstDataBlock <= v.blocksCount
    ensures v.BlockPool().first == v.firstDataBlock && v.BlockPool().per == v.blocksPerGroup
    ensures v.BlockPool().freeTotal == v.freeBlocks && |v.BlockPool().maps| == |v.groups|
    ensures v.BlockPool().InRange(0) ==> v.BlockPool().Used(0)
    ensures v.freeBlocks == 0 <==> v.BlockPool().FirstFree(v.firstDataBlock) == 0
  {
    NoneFreeIff(v.BlockPool());
  }

  lemma BlockGroup(v: Volume, g: nat)
    requires v.Valid() && g < |v.groups|
    ensures v.BlockPool().Shape() && g < |v.BlockPool().maps| && v.BlockPool().free[g] == v.groups[g].freeBlocks
    ensures v.groups[g].freeBlocks > 0 ==>
              v.groups[g].blockBitmap < |v.disk| && v.BlockPool().maps[g] == v.disk[v.groups[g].blockBitmap]
  {
    hide Zeros, Taken;
    assert v.BlockPool().maps[g] == v.BlockMap(g);
  }

  lemma MarkBlockIs(v: Volume, g: nat, k: nat)
    requires v.Valid() && g < |v.groups| && v.groups[g].freeBlocks > 0 && v.freeBlocks > 0
    requires v.groups[g].blockBitmap < |v.disk| && k < 8 * |v.disk[v.groups[g].blockBitmap]|
    requires v.BlockPool().InRange(v.firstDataBlock + g * v.blocksPerGroup + k)
    requires v.BlockPool().Group(v.firstDataBlock + g * v.blocksPerGroup + k) == g
    requires v.BlockPool().Index(v.firstDataBlock + g * v.blocksPerGroup + k) == k
    ensures v.MarkBlock(v.firstDataBlock + g * v.blocksPerGroup + k)
         == v.(disk := v.disk[v.groups[g].blockBitmap := Mark(v.disk[v.groups[g].blockBitmap], k)],
               groups := v.groups[g := v.groups[g].(freeBlocks := v.groups[g].freeBlocks - 1)],
               freeBlocks := v.freeBlocks - 1)
  {
    hide Volume.Valid, Volume.Geometry, Volume.Placed, Volume.BlockPool, Pool.Group, Pool.Index, Pool.Valid, Mark, Taken;
    BlockPoolFacts(v);
    BlockGroup(v, g);
  }

  ghost function TakenInode(v: Volume, i: nat): Volume {
    if v.InodePool().Shape() && v.InodePool().InRange(i) then v.MarkInode(i) else v
  }

  ghost function GivenBackInode(v: Volume, i: nat): Volume {
    if v.InodePool().Shape() && v.InodePool().InRange(i) then v.UnmarkInode(i) else v
  }

  lemma AllocateInodeView(v: Volume, r: nat)
    requires v.Valid() && v.InodePool().Shape() && r == v.InodePool().FirstFree(1)
    ensures r == Abs(v).NewInode()
    ensures r != 0 ==> TakenInode(v, r).Valid() && Abs(TakenInode(v, r)) == Abs(v).TakeInode(r)
  {
    hide Volume.Valid, Volume.Geometry, Volume.Placed, Volume.MarkInode, Pool.Used, Inodes, DataBlocks, LiveInodes, UsedBlocks;
    InodePoolFacts(v);
    FirstFreeIs(v.InodePool(), 1);
    AbsFirstFreeInode(v, 1);
    if r != 0 {
      AbsMarkInode(v, r);
    }
  }

  lemma FreeInodeView(v: Volume, i: nat)
    requires v.Valid()
    ensures 0 < i <= v.inodesCount <==> v.InodePool().InRange(i)
    ensures v.InodePool().Shape()
    ensures i in Abs(v).live ==>
              GivenBackInode(v, i).Valid() && Abs(GivenBackInode(v, i)) == Abs(v).DropInode(i)
  {
    hide Volume.Geometry, Volume.Placed, Volume.UnmarkInode, Pool.Used, Inodes, UsedBlocks, DataBlocks;
    if i in Abs(v).live {
      AbsUnmarkInode(v, i);
    }
  }

  lemma InodePlace(v: Volume, i: nat)
    requires v.Valid() && 0 < i <= v.inodesCount
    ensures v.inodesPerGroup > 0 && v.InodePool().Shape() && v.InodePool().InRange(i)
    ensures var g, k := (i - 1) / v.inodesPerGroup, (i - 1) % v.inodesPerGroup;
      && g < |v.groups| && g == v.InodePool().Group(i) && k == v.InodePool().Index(i)
      && v.groups[g].inodeBitmap < |v.disk| && v.InodePool().maps[g] == v.disk[v.groups[g].inodeBitmap]
      && k < 8 * |v.disk[v.groups[g].inodeBitmap]|
  {
    hide Zeros, Taken;
    Split(v.InodePool(), i);
    assert v.InodePool().maps[v.InodePool().Group(i)] == v.InodeMap(v.InodePool().Group(i));
  }

  lemma UnmarkInodeIs(v: Volume, i: nat, g: nat, k: nat)
    requires v.Valid() && v.InodePool().Shape() && v.InodePool().InRange(i) && g < |v.groups|
    requires g == v.InodePool().Group(i) && k == v.InodePool().Index(i)
    requires v.groups[g].inodeBitmap < |v.disk| && v.InodePool().maps[g] == v.disk[v.groups[g].inodeBitmap]
    requires k < 8 * |v.disk[v.groups[g].inodeBitmap]|
    ensures v.UnmarkInode(i)
         == v.(disk := v.disk[v.groups[g].inodeBitmap := Unmark(v.disk[v.groups[g].inodeBitmap], k)],
               groups := v.groups[g := v.groups[g].(freeInodes := v.groups[g].freeInodes + 1)],
               freeInodes := v.freeInodes + 1)
  {
    hide Volume.Valid, Volume.Geometry, Volume.Placed, Volume.InodePool, Pool.Group, Pool.Index, Pool.Valid, Unmark, Taken;
    InodePoolFacts(v);
    InodeGroup(v, g);
  }

  lemma InodePoolFacts(v: Volume)
    requires v.Valid()
    ensures v.InodePool().Valid() && v.InodePool().Shape()
    ensures v.InodePool().first == 1 && v.InodePool().per == v.inodesPerGroup
    ensures v.InodePool().freeTotal == v.freeInodes && |v.InodePool().maps| == |v.groups|
    ensures !v.InodePool().InRange(0)
    ensures v.freeInodes == 0 <==> v.InodePool().FirstFree(1) == 0
  {
    NoneFreeIff(v.InodePool());
  }

  lemma InodeGroup(v: Volume, g: nat)
    requires v.Valid() && g < |v.groups|
    ensures v.InodePool().Shape() && g < |v.InodePool().maps| && v.InodePool().free[g] == v.groups[g].freeInodes
    ensures v.groups[g].freeInodes > 0 ==>
              v.groups[g].inodeBitmap < |v.disk| && v.InodePool().maps[g] == v.disk[v.groups[g].inodeBitmap]
  {
    hide Zeros, Taken;
    assert v.InodePool().maps[g] == v.InodeMap(g);
  }

  lemma MarkInodeIs(v: Volume, g: nat, k: nat)
    requires v.Valid() && g < |v.groups| && v.groups[g].freeInodes > 0 && v.freeInodes > 0
    requires v.groups[g].inodeBitmap < |v.disk| && k < 8 * |v.disk[v.groups[g].inodeBitmap]|
    requires v.InodePool().InRange(1 + g * v.inodesPerGroup + k)
    requires v.InodePool().Group(1 + g * v.inodesPerGroup + k) == g
    requires v.InodePool().Index(1 + g * v.inodesPerGroup + k) == k
    ensures v.MarkInode(1 + g * v.inodesPerGroup + k)
         == v.(disk := v.disk[v.groups[g].inodeBitmap := Mark(v.disk[v.groups[g].inodeBitmap], k)],
               groups := v.groups[g := v.groups[g].(freeInodes := v.groups[g].freeInodes - 1)],
               freeInodes := v.freeInodes - 1)
  {
    hide Volume.Valid, Volume.Geometry, Volume.Placed, Volume.InodePool, Pool.Group, Pool.Index, Pool.Valid, Mark, Taken;
    InodePoolFacts(v);
    InodeGroup(v, g);
  }

  lemma ViewShape(v: Volume)
    requires v.Valid()
    ensures Abs(v).Shape() && Abs(v).blockSize == v.blockSize > 0
  {
    AbsShape(v);
  }

  /** Which inode numbers exist, and that the slot of each lies inside the disk. */
  lemma SlotFacts(v: Volume, i: nat)
    requires v.Valid()
    ensures v.Geometry() && v.Placed() && (i in Inodes(v) <==> 0 < i <= v.inodesCount)
    ensures ValidIno(v, i) ==> v.inodesPerGroup > 0 && v.blockSize > 0 && GroupOf(v, i) < |v.groups|
    ensures ValidIno(v, i) ==> InodeBlock(v, i) < |v.disk| && InodeOffset(v, i) + 128 <= |v.disk[InodeBlock(v, i)]|
  {
    hide InodeAt;
    if ValidIno(v, i) {
      GroupBound(v, i);
      SlotPlace(v, i);
    }
  }

  /** The indirect block of a live file is a data block. */
  lemma IndirectPresent(s: Fs, i: nat)
    requires Sound(s) && i in s.live && i in s.inodes && Managed(s.inodes[i])
    ensures Ptr(s.inodes[i], 12) != 0 ==> Ptr(s.inodes[i], 12) in s.data
  {
    hide Ptr, Managed, FileBlock;
    assert Ptr(s.inodes[i], 12) != 0 ==> Owns(s, i, 12, Ptr(s.inodes[i], 12));
  }

  lemma FileBlockPresent(s: Fs, i: nat, fb: nat)
    requires Sound(s) && i in s.live && i in s.inodes && Managed(s.inodes[i])
    ensures FileBlock(s, s.inodes[i], fb) != 0 ==> FileBlock(s, s.inodes[i], fb) in s.data
  {
    hide Managed, FileBlock;
    FileBlockOwned(s, i, fb);
  }

  /** The bytes of the file from cur on, as far as they lie in one block. */
  lemma BlockBytes(s: Fs, img: Image, cur: nat, blk: Block, n: nat)
    requires s.Shape() && n <= s.blockSize - BlockAt(cur, s.blockSize)
    requires var b := FileBlock(s, img, BlockNo(cur, s.blockSize));
             if b == 0 then blk == Blank(s.blockSize) else b in s.data && blk == s.data[b]
    ensures |blk| == s.blockSize
    ensures forall p | cur <= p < cur + n :: FileByte(s, img, p) == blk[BlockAt(cur, s.blockSize) + (p - cur)]
  {
    hide FileBlock, BlockNo, BlockAt;
    forall p | cur <= p < cur + n ensures FileByte(s, img, p) == blk[BlockAt(cur, s.blockSize) + (p - cur)] {
      InBlock(p, cur, n, s.blockSize);
    }
  }

  /** What BlockToWrite hands out. */
  ghost predicate Prepared(s: Fs, t: Fs, img: Image, img': Image, fb: nat, pb: nat, buf: Block) {
    && pb in t.data && pb in s.data && |buf| == s.blockSize && t.blockSize == s.blockSize
    && if FileBlock(s, img, fb) != 0 then
         img' == img && t == s && pb == FileBlock(s, img, fb) && buf == s.data[pb]
       else
         fb < 12 && pb == s.NewBlock() && 0 != pb < TWO32 && t == s.TakeBlock(pb) && img' == Attach(s, img, fb, pb)
         && buf == Blank(s.blockSize)
  }

  lemma PreparedData(s: Fs, t: Fs, img: Image, img': Image, fb: nat, pb: nat, buf: Block)
    requires Prepared(s, t, img, img', fb, pb, buf)
    ensures pb in t.data && |buf| == s.blockSize == t.blockSize
  {
    hide FileBlock, Attach, Blank;
  }

  /**
   The state of the write loop: c is the volume with the inode in memory written back, and finishing
   the loop from c gives what the whole loop gives from the start.
   */
  ghost predicate Loop(s: Fs, c: Fs, now: Fs, i: nat, img: Image, data: seq<Byte>, off: nat, n: nat)
    requires n <= |data|
  {
    && s.Shape() && Sound(c) && c.Shape() && i in s.inodes && i in now.inodes && i in c.live && i in c.inodes
    && Managed(c.inodes[i]) && c.inodes[i] == img && c == now.PutInode(i, img)
    && WriteLoop(s, i, data, off).s == WriteLoop(c, i, data[n..], off + n).s
    && WriteLoop(s, i, data, off).n == n + WriteLoop(c, i, data[n..], off + n).n
  }

  lemma LoopStarts(s: Fs, i: nat, img: Image, data: seq<Byte>, off: nat)
    requires Sound(s) && s.Shape() && i in s.live && i in s.inodes && Managed(s.inodes[i]) && img == s.inodes[i]
    ensures Loop(s, s, s, i, img, data, off, 0)
  {
    hide Sound, Managed, WriteLoop, Fs.Shape;
    assert data[0..] == data;
    assert s.PutInode(i, img) == s;
  }

  /** Every block the loop may touch is a data block. */
  lemma LoopBlocks(s: Fs, c: Fs, now: Fs, i: nat, img: Image, data: seq<Byte>, off: nat, n: nat, fb: nat)
    requires n <= |data| && Loop(s, c, now, i, img, data, off, n)
    ensures Ptr(img, 12) != 0 ==> Ptr(img, 12) in now.data
    ensures FileBlock(now, img, fb) != 0 ==> FileBlock(now, img, fb) in now.data
    ensures c.blockSize == now.blockSize && now.inodes.Keys == c.inodes.Keys
  {
    hide Sound, Managed, WriteLoop, Fs.Shape, FileBlock, Ptr;
    IndirectPresent(c, i);
    FileBlockPresent(c, i, fb);
    SameFileBlock(c, now, img, fb);
  }

  lemma SameFileBlock(c: Fs, t: Fs, img: Image, fb: nat)
    requires c.data == t.data && c.blockSize == t.blockSize
    ensures FileBlock(c, img, fb) == FileBlock(t, img, fb)
  {
  }

  lemma AttachIs(s: Fs, img: Image, k: nat, b: nat)
    requires k < 12 && b < TWO32
    ensures Attach(s, img, k, b) == SetSectors(SetPtr(img, k, b), (Sectors(SetPtr(img, k, b)) + s.blockSize / 512) % TWO32)
  {
    hide SetPtr, SetSectors, Sectors;
  }

  lemma NewBlockData(s: Fs)
    requires s.Shape() && s.NewBlock() != 0
    ensures s.NewBlock() in s.data && s.NewBlock() !in s.used && s.NewBlock() < TWO32
  {
    FirstFreeBlockIs(s, s.firstBlock);
  }

  /** The round that finds a hole it cannot fill is the last. */
  lemma StepStops(s: Fs, c: Fs, was: Fs, i: nat, img: Image, data: seq<Byte>, off: nat, n: nat)
    requires n < |data| && Loop(s, c, was, i, img, data, off, n) && c.blockSize > 0
    requires Unfillable(was, img, BlockNo(off + n, c.blockSize))
    ensures WriteLoop(s, i, data, off) == Written(c, n)
  {
    hide WriteLoop, WriteStep, Sound, Managed, FileBlock, BlockNo, Fs.Shape;
    SameFileBlock(c, was, img, BlockNo(off + n, c.blockSize));
    SameNewBlock(was, c, was.firstBlock);
    WriteStepWrites(c, i, data[n..], off + n);
    WriteLoopStop(c, i, data[n..], off + n);
  }

  lemma LoopEnds(s: Fs, c: Fs, now: Fs, i: nat, img: Image, data: seq<Byte>, off: nat, n: nat)
    requires n == |data| && Loop(s, c, now, i, img, data, off, n)
    ensures WriteLoop(s, i, data, off) == Written(c, n)
  {
    hide WriteLoop, Sound, Managed, Fs.Shape;
    WriteLoopStop(c, i, data[n..], off + n);
  }

  /** One round of the method is one step of the specification. */
  lemma StepIs(c: Fs, was: Fs, t: Fs, i: nat, img: Image, img': Image, data: seq<Byte>, cur: nat, n: nat, pb: nat, buf: Block)
    requires Sound(c) && c.Shape() && i in c.inodes && c.inodes[i] == img && c == was.PutInode(i, img) && data != []
    requires n == Min(c.blockSize - BlockAt(cur, c.blockSize), |data|)
    requires Prepared(was, t, img, img', BlockNo(cur, c.blockSize), pb, buf)
    ensures BlockAt(cur, c.blockSize) + n <= |buf|
    ensures WriteStep(c, i, data, cur) == Next(t.PutData(pb, Splice(buf, BlockAt(cur, c.blockSize), data[..n])).PutInode(i, img'), n)
  {
    hide FileBlock, BlockNo, BlockAt, Splice, Blank, SetPtr, SetSectors, Sound, Fs.Shape;
    SameFileBlock(c, was, img, BlockNo(cur, c.blockSize));
    SameNewBlock(was, c, was.firstBlock);
    assert was.inodes[i := img][i := img'] == was.inodes[i := img'];
  }

  lemma StepGoes(s: Fs, c: Fs, was: Fs, t: Fs, i: nat, img: Image, img': Image, data: seq<Byte>, off: nat, n: nat, chunk: nat,
                 fb: nat, at: nat, pb: nat, buf: Block)
    returns (c': Fs)
    requires n < |data| && Loop(s, c, was, i, img, data, off, n) && c.blockSize > 0
    requires fb == BlockNo(off + n, c.blockSize) && at == BlockAt(off + n, c.blockSize)
    requires chunk == Min(c.blockSize - at, |data| - n) && at + chunk <= |buf| == c.blockSize
    requires exists b: Block :: Prepared(was, t, img, img', fb, pb, b) && at + chunk <= |b| && buf == Splice(b, at, data[n..n + chunk])
    ensures c' == t.PutData(pb, buf).PutInode(i, img')
    ensures n + chunk <= |data| && Loop(s, c', t.PutData(pb, buf), i, img', data, off, n + chunk)
  {
    hide WriteLoop, WriteStep, Sound, Managed, FileBlock, BlockNo, BlockAt, Fs.Shape, Fs.NewBlock, Splice, Blank, Attach, Wrote;
    var b: Block :| Prepared(was, t, img, img', fb, pb, b) && at + chunk <= |b| && buf == Splice(b, at, data[n..n + chunk]);
    c' := t.PutData(pb, buf).PutInode(i, img');
    assert data[n..][..chunk] == data[n..n + chunk] && data[n..][chunk..] == data[n + chunk..];
    StepIs(c, was, t, i, img, img', data[n..], off + n, chunk, pb, b);
    WriteStepWrites(c, i, data[n..], off + n);
    WriteLoopNext(c, i, data[n..], off + n, c', chunk);
    WroteKeepsKind(c, c', i, off + n, data[n..][..chunk]);
  }

  /** Writing the inode back with the new size completes the specification of the write. */
  lemma WriteFileEnds(s: Fs, c: Fs, now: Fs, i: nat, img: Image, data: seq<Byte>, off: nat, n: nat)
    requires n <= |data| && off + |data| < TWO32 && Loop(s, c, now, i, img, data, off, n)
    requires s.Shape() && i in s.inodes && WriteLoop(s, i, data, off) == Written(c, n)
    ensures i in now.inodes
    ensures Ext2File.WriteFile(s, i, data, off)
         == Written(now.PutInode(i, if off + n > Size(img) then SetSize(img, off + n) else img), n)
  {
    hide WriteLoop, Sound, Managed, Fs.Shape, Size, SetSize;
    WriteFileCases(s, i, data, off);
    if off + n > Size(img) {
      assert now.inodes[i := img][i := SetSize(img, off + n)] == now.inodes[i := SetSize(img, off + n)];
    }
  }

  // ----- directories -----

  lemma DirFacts(s: Fs, d: nat)
    requires Parent(s, d)
    ensures Sound(s) && s.Shape() && s.blockSize > 0 && d in s.inodes && DirOk(s, s.inodes[d]) && Managed(s.inodes[d])
    ensures Ptr(s.inodes[d], 12) != 0 ==> Ptr(s.inodes[d], 12) in s.data
  {
    hide Inv, DirOk, IsDir, Ptr;
    FullInvParts(s);
    DirManaged(s.inodes[d]);
    IndirectPresent(s, d);
  }

  lemma DirBlockFacts(s: Fs, d: nat, fb: nat)
    requires Parent(s, d) && s.blockSize > 0
    ensures DirBlockOk(s, s.inodes[d], fb)
    ensures var b := FileBlock(s, s.inodes[d], fb); b != 0 ==> b in s.data && Tiled(s.data[b], 0)
  {
    hide Inv, FileBlock, Tiled, IsDir;
    assert DirOk(s, s.inodes[d]);
    assert DirBlockOk(s, s.inodes[d], fb);
  }

  lemma FindDir(s: Fs, img: Image, name: seq<Byte>)
    requires s.blockSize > 0 && DirOk(s, img)
    ensures Find(s, img, name, 0, Blocks(s, img)) == Lookup(Dir(s, img), name)
  {
    hide DirOk, Blocks, Find, Lookup, EntriesFrom;
    FindIs(s, img, name, 0, Blocks(s, img));
  }

  lemma FindNext(s: Fs, img: Image, name: seq<Byte>, fb: nat, n: nat)
    requires s.blockSize > 0 && DirOk(s, img) && (fb < n ==> DirBlockOk(s, img, fb))
    ensures fb >= n ==> Find(s, img, name, fb, n) == 0
    ensures fb < n && FileBlock(s, img, fb) == 0 ==> Find(s, img, name, fb, n) == Find(s, img, name, fb + 1, n)
    ensures fb < n && FileBlock(s, img, fb) != 0 ==>
      var b := FileBlock(s, img, fb);
      && b in s.data && Tiled(s.data[b], 0)
      && match FindRec(s.data[b], 0, name)
         case Some(o) => Find(s, img, name, fb, n) == Ino(s.data[b], o)
         case None => Find(s, img, name, fb, n) == Find(s, img, name, fb + 1, n)
  {
    hide FileBlock, Tiled, FindRec, Ino, Blocks;
  }

  /** The three outcomes of appending a block. */
  ghost predicate Appended(s: Fs, t: Fs, d: nat, img: Image, img': Image, nb: nat)
    requires d in s.inodes
  {
    s.blockSize > 0 &&
    var b, k := s.NewBlock(), BlockNo(Size(img), s.blockSize);
    if b == 0 then
      nb == 0 && img' == img && t == s
    else if k >= 12 then
      nb == 0 && img' == img && t == s.PutData(b, Blank(s.blockSize))
    else
      nb == b && b < TWO32 && b in s.data && img' == Extended(s, img, k, b)
      && t == s.TakeBlock(b).PutData(b, Blank(s.blockSize)).PutInode(d, img')
  }

  lemma AppendedNone(s: Fs, d: nat, img: Image)
    requires d in s.inodes && s.blockSize > 0
    ensures s.NewBlock() == 0 ==> Appended(s, s, d, img, img, 0)
  {
    hide Fs.NewBlock, Extended, Blank, Size;
  }

  lemma AppendedFar(s: Fs, d: nat, img: Image, b: nat)
    requires d in s.inodes && s.blockSize > 0 && b == s.NewBlock() != 0 && BlockNo(Size(img), s.blockSize) >= 12 && b !in s.used
    ensures Appended(s, s.TakeBlock(b).PutData(b, Blank(s.blockSize)).DropBlock(b), d, img, img, 0)
  {
    hide Fs.NewBlock, Extended, Blank, Size;
    assert s.used + {b} - {b} == s.used;
  }

  lemma AppendedDone(s: Fs, d: nat, img: Image, k: nat, b: nat)
    requires d in s.inodes && s.blockSize > 0 && b == s.NewBlock() != 0 && k == BlockNo(Size(img), s.blockSize) < 12
    requires b < TWO32 && b in s.data
    ensures var a := SetSize(SetPtr(img, k, b), (Size(img) + s.blockSize) % TWO32);
            var img' := SetSectors(a, (Sectors(a) + s.blockSize / 512) % TWO32);
            Appended(s, s.TakeBlock(b).PutData(b, Blank(s.blockSize)).PutInode(d, img'), d, img, img', b)
  {
    hide Fs.NewBlock, SetPtr, SetSectors, SetSize, Sectors, Size, Blank;
  }

  /** The outcome of the method is the outcome of the specification. */
  ghost predicate AddedBy(s: Fs, d: nat, ino: nat, name: seq<Byte>, kind: Byte, t: Fs, ok: bool)
    requires Parent(s, d) && ino < TWO32 && |name| < 256
  {
    ParentOk(s, d);
    AddEntry(s, d, ino, name, kind) == Added(t, ok)
  }

  lemma FitNext(s: Fs, img: Image, need: nat, fb: nat, n: nat)
    requires s.blockSize > 0 && DirOk(s, img) && (fb < n ==> DirBlockOk(s, img, fb))
    ensures fb >= n ==> FitBlock(s, img, need, fb, n) == None
    ensures fb < n && FileBlock(s, img, fb) == 0 ==> FitBlock(s, img, need, fb, n) == FitBlock(s, img, need, fb + 1, n)
    ensures fb < n && FileBlock(s, img, fb) != 0 ==>
      var b := FileBlock(s, img, fb);
      && b in s.data && Tiled(s.data[b], 0)
      && FitBlock(s, img, need, fb, n)
         == if FitRec(s.data[b], 0, need).Some? then Some(fb) else FitBlock(s, img, need, fb + 1, n)
  {
    hide FileBlock, Tiled, FitRec, Blocks;
  }

  lemma FindBlockNext(s: Fs, img: Image, name: seq<Byte>, fb: nat, n: nat)
    requires s.blockSize > 0 && DirOk(s, img) && (fb < n ==> DirBlockOk(s, img, fb))
    ensures fb >= n ==> FindBlock(s, img, name, fb, n) == None
    ensures fb < n && FileBlock(s, img, fb) == 0 ==> FindBlock(s, img, name, fb, n) == FindBlock(s, img, name, fb + 1, n)
    ensures fb < n && FileBlock(s, img, fb) != 0 ==>
      var b := FileBlock(s, img, fb);
      && b in s.data && Tiled(s.data[b], 0)
      && FindBlock(s, img, name, fb, n)
         == if FindRec(s.data[b], 0, name).Some? then Some(fb) else FindBlock(s, img, name, fb + 1, n)
  {
    hide FileBlock, Tiled, FindRec, Blocks;
  }

  lemma AddedInBlock(s: Fs, d: nat, ino: nat, name: seq<Byte>, kind: Byte, fb: nat, o: nat)
    requires Parent(s, d) && ino < TWO32 && |name| < 256 && s.blockSize > 0 && DirOk(s, s.inodes[d])
    requires FitBlock(s, s.inodes[d], Rounded(|name|), 0, Blocks(s, s.inodes[d])) == Some(fb)
    requires var b := FileBlock(s, s.inodes[d], fb);
             b in s.data && Tiled(s.data[b], 0) && FitRec(s.data[b], 0, Rounded(|name|)) == Some(o)
    ensures var b := FileBlock(s, s.inodes[d], fb);
            AddedBy(s, d, ino, name, kind, s.PutData(b, InsertAt(s.data[b], o, ino, name, kind)), true)
  {
    hide Parent, FileBlock, Tiled, FitRec, DirOk, Blocks, FitBlock, InsertAt, Rounded;
    ParentOk(s, d);
  }

  lemma AppendedFacts(s: Fs, t: Fs, d: nat, img: Image, img': Image, nb: nat)
    requires d in s.inodes && Appended(s, t, d, img, img', nb)
    ensures t.blockSize == s.blockSize && d in t.inodes && (nb == 0 ==> img' == img && t.inodes == s.inodes)
    ensures nb != 0 ==> nb in t.data && t.inodes[d] == img'
  {
    hide Fs.NewBlock, Extended, Blank, Size;
  }

  lemma AddedAtEnd(s: Fs, t: Fs, d: nat, img': Image, ino: nat, name: seq<Byte>, kind: Byte, nb: nat)
    requires Parent(s, d) && ino < TWO32 && |name| < 256 && s.blockSize > 0 && DirOk(s, s.inodes[d]) && nb != 0
    requires FitBlock(s, s.inodes[d], Rounded(|name|), 0, Blocks(s, s.inodes[d])) == None
    requires Appended(s, t, d, s.inodes[d], img', nb)
    ensures 1024 <= s.blockSize <= 32768
    ensures AddedBy(s, d, ino, name, kind, t.PutData(nb, PutRec(Blank(s.blockSize), 0, ino, s.blockSize, name, kind)), true)
  {
    hide FullInv, FileBlock, Tiled, FitRec, DirOk, Blocks, FitBlock, InsertAt, PutRec, Rounded, Fs.NewBlock, Extended, Blank, Size, IsDir;
    ParentOk(s, d);
    FullInvParts(s);
    var z := Blank(s.blockSize);
    var w := PutRec(z, 0, ino, s.blockSize, name, kind);
    assert s.data[nb := z][nb := w] == s.data[nb := w];
  }

  lemma AddedNot(s: Fs, t: Fs, d: nat, img: Image, img': Image, ino: nat, name: seq<Byte>, kind: Byte)
    requires Parent(s, d) && ino < TWO32 && |name| < 256 && s.blockSize > 0 && DirOk(s, s.inodes[d]) && img == s.inodes[d]
    requires FitBlock(s, img, Rounded(|name|), 0, Blocks(s, img)) == None
    requires Appended(s, t, d, img, img', 0)
    ensures AddedBy(s, d, ino, name, kind, t, false)
  {
    hide Parent, FileBlock, Tiled, FitRec, DirOk, Blocks, FitBlock, InsertAt, PutRec, Rounded, Fs.NewBlock, Extended, Blank, Size;
    ParentOk(s, d);
  }

  lemma RemovedInBlock(s: Fs, d: nat, name: seq<Byte>, fb: nat, o: nat)
    requires s.blockSize > 0 && d in s.inodes && DirOk(s, s.inodes[d])
    requires FindBlock(s, s.inodes[d], name, 0, Blocks(s, s.inodes[d])) == Some(fb)
    requires var b := FileBlock(s, s.inodes[d], fb); b in s.data && Tiled(s.data[b], 0) && FindRec(s.data[b], 0, name) == Some(o)
    ensures var b := FileBlock(s, s.inodes[d], fb);
            RemoveEntry(s, d, name) == Added(s.PutData(b, ClearAt(s.data[b], o)), true)
  {
    hide FileBlock, Tiled, FindRec, DirOk, Blocks, FindBlock, ClearAt;
  }

  lemma RemovedNot(s: Fs, d: nat, name: seq<Byte>)
    requires s.blockSize > 0 && d in s.inodes && DirOk(s, s.inodes[d])
    requires FindBlock(s, s.inodes[d], name, 0, Blocks(s, s.inodes[d])) == None
    ensures RemoveEntry(s, d, name) == Added(s, false)
  {
    hide FileBlock, Tiled, FindRec, DirOk, Blocks, FindBlock, ClearAt;
  }

  lemma ParentIs(s: Fs, d: nat)
    requires Parent(s, d)
    ensures d in s.inodes && d in s.live
  {
  }

  lemma FreshIsEmpty(mode: nat, uid: nat, gid: nat, links: nat)
    requires mode / 0x1000 == 8 || mode / 0x1000 == 4
    requires uid < 0x1_0000 && gid < 0x1_0000 && links < 0x1_0000
    ensures Empty(FreshInode(mode, uid, gid, links))
    ensures IsDir(FreshInode(mode, uid, gid, links)) <==> mode / 0x1000 == 4
  {
    hide FreshInode, Size, Ptr, Mode, Links;
    FreshFields(mode, uid, gid, links);
  }

  lemma NewInodeData(s: Fs, d: nat, img: Image)
    requires Parent(s, d) && Empty(img) && s.NewInode() != 0
    ensures var i := s.NewInode(); var t := s.TakeInode(i).PutInode(i, img);
      0 < i < TWO32 && i != d && i in s.inodes && Parent(t, d) && t.inodes[d] == s.inodes[d]
  {
    hide Parent, Fs.NewInode, Empty, OthersSame;
    TakeInodeKeeps(s, d, img);
  }

  /** The steps of the method add up to the specification. */
  lemma CreateFileIs(s: Fs, t: Fs, d: nat, name: seq<Byte>, img: Image, u: Fs, ok: bool)
    requires Parent(s, d) && Empty(img) && |name| < 256
    requires s.NewInode() != 0 ==>
      var i := s.NewInode(); i < TWO32 && t == s.TakeInode(i).PutInode(i, img) && Parent(t, d) && AddedBy(t, d, i, name, 1, u, ok)
    ensures Ext2Ops.CreateFile(s, d, name, img)
         == if s.NewInode() == 0 then Added(s, false)
            else if ok then Added(u, true) else Added(u.DropInode(s.NewInode()), false)
  {
    hide Parent, Fs.NewInode, Empty, AddEntry, OthersSame, DirOk;
  }

  /** A failed addition leaves the inodes that are in use. */
  lemma LiveStays(t: Fs, d: nat, i: nat, name: seq<Byte>, u: Fs)
    requires Parent(t, d) && 0 < i < TWO32 && 0 < |name| < 256 && AddedBy(t, d, i, name, 1, u, false)
    ensures u.live == t.live
  {
    hide FullInv, IsDir, AddEntry, DirOk, AllSame;
    ParentOk(t, d);
    AddEntryKeeps(t, d, i, name, 1);
  }

  /** Attaching the first block to a fresh inode sets its pointer, its size and its sector count. */
  lemma FirstBlockIs(s: Fs, mode: nat, uid: nat, gid: nat, b: nat)
    requires mode < 0x1_0000 && uid < 0x1_0000 && gid < 0x1_0000 && b < TWO32 && s.blockSize <= 32768
    ensures var img := FreshInode(mode, uid, gid, 2);
            Extended(s, img, 0, b) == SetSectors(SetSize(SetPtr(img, 0, b), s.blockSize), s.blockSize / 512)
  {
    hide FreshInode, Get32, Put32, Get16;
    var img := FreshInode(mode, uid, gid, 2);
    FreshFields(mode, uid, gid, 2);
    Put32Frame(img, 40, b, 28);
    Put32Frame(SetPtr(img, 0, b), 4, s.blockSize, 28);
  }

  lemma CreateDirFails(s: Fs, d: nat, name: seq<Byte>, img: Image)
    requires Parent(s, d) && Empty(img) && IsDir(img) && |name| < 256 && (s.NewInode() == 0 || s.NewBlock() == 0)
    ensures Ext2Ops.CreateDir(s, d, name, img) == Added(s, false)
  {
    hide Parent, Fs.NewInode, Fs.NewBlock, Empty, AddEntry, DirOk, IsDir;
  }

  lemma NewBlockSame(s: Fs, t: Fs)
    requires t.used == s.used && t.blocksCount == s.blocksCount && t.firstBlock == s.firstBlock
    ensures t.NewBlock() == s.NewBlock()
  {
    SameNewBlock(s, t, s.firstBlock);
  }

  /** Taking an inode and giving it back changes nothing. */
  lemma NewInodeUnused(s: Fs, d: nat, img: Image)
    requires Parent(s, d) && Empty(img) && s.NewInode() != 0
    ensures s.TakeInode(s.NewInode()).DropInode(s.NewInode()) == s
  {
    hide Parent, Fs.NewInode, Empty, OthersSame;
    TakeInodeKeeps(s, d, img);
    assert s.live + {s.NewInode()} - {s.NewInode()} == s.live;
  }

  lemma NewDirData(s: Fs, d: nat, img: Image)
    requires Parent(s, d) && Empty(img) && IsDir(img) && s.NewInode() != 0 && s.NewBlock() != 0
    ensures 1024 <= s.blockSize <= 32768 && s.NewInode() < TWO32 && d < TWO32 && s.NewBlock() < TWO32
    ensures var i, b := s.NewInode(), s.NewBlock(); var t := NewDir(s, i, b, d, img);
      && i in s.inodes && b in s.data && i != d && 0 < i && Parent(t, d) && t.inodes[d] == s.inodes[d]
  {
    hide FullInv, Fs.NewInode, Fs.NewBlock, Empty, OthersSame, IsDir, NewDir, Dir, Inv, DirOk;
    NewDirKeeps(s, d, img);
    NewBlockIs(s);
  }

  lemma NewDirIs(s: Fs, t: Fs, i: nat, b: nat, d: nat, img: Image)
    requires 1024 <= s.blockSize <= 32768 && i < TWO32 && d < TWO32 && b < TWO32
    requires var u := s.TakeInode(i).TakeBlock(b);
             t == u.PutInode(i, Extended(u, img, 0, b)).PutData(b, Dots(u.blockSize, i, d))
    ensures t == NewDir(s, i, b, d, img)
  {
    hide Extended, Dots;
    SameExtended(s, s.TakeInode(i).TakeBlock(b), img, b);
  }

  lemma CreateDirIs(s: Fs, t: Fs, d: nat, name: seq<Byte>, img: Image, u: Fs, ok: bool)
    requires Parent(s, d) && Empty(img) && IsDir(img) && 0 < |name| < 256 && s.NewInode() != 0 && s.NewBlock() != 0
    requires 1024 <= s.blockSize <= 32768 && s.NewInode() < TWO32 && d < TWO32 && s.NewBlock() < TWO32
    requires t == NewDir(s, s.NewInode(), s.NewBlock(), d, img) && Parent(t, d) && AddedBy(t, d, s.NewInode(), name, 2, u, ok)
    requires d in u.inodes
    ensures Ext2Ops.CreateDir(s, d, name, img) == Added(if ok then u.PutInode(d, Linked(u.inodes[d])) else u, ok)
  {
    hide Parent, Fs.NewInode, Fs.NewBlock, Empty, AddEntry, DirOk, NewDir, Linked, IsDir, OthersSame;
  }

  /** The state of the delete loop: rounds 0 .. k - 1 of the specification are done. */
  ghost predicate Freeing(s: Fs, c: Fs, now: Fs, i: nat, img: Image, k: nat)
    requires k <= 12
  {
    && Sound(c) && i in s.inodes && i in now.inodes && i in c.live && i in c.inodes && Managed(c.inodes[i])
    && c.inodes[i] == img && c == now.PutInode(i, img)
    && FreeSlots(s, i, 0) == FreeSlots(c, i, k)
  }

  lemma DeleteStarts(s: Fs, d: nat, i: nat)
    requires Parent(s, d) && i in s.live && i in s.inodes && IsReg(s.inodes[i])
    ensures i != d && Managed(s.inodes[i]) && Sound(s)
  {
    hide FullInv, DirOk, Inv;
    RegNotDir(s, d, i);
    FullInvParts(s);
  }

  lemma FreeingStep(s: Fs, c: Fs, now: Fs, i: nat, img: Image, k: nat)
    requires k < 12 && Freeing(s, c, now, i, img, k)
    ensures i in c.inodes
    ensures Ptr(img, k) != 0 ==> Ptr(img, k) in now.used && Ptr(img, k) in now.data
    ensures var t := if Ptr(img, k) == 0 then now else now.DropBlock(Ptr(img, k));
            var img' := if Ptr(img, k) == 0 then img else SetPtr(img, k, 0);
            Freeing(s, FreeSlot(c, i, k), t, i, img', k + 1)
  {
    hide Sound, Managed, Ptr, SetPtr, OthersSame;
    FreeSlotOwns(c, i, k);
    SlotPresent(c, i, k);
    if Ptr(img, k) != 0 {
      assert now.inodes[i := img][i := SetPtr(img, k, 0)] == now.inodes[i := SetPtr(img, k, 0)];
    }
  }

  lemma SlotPresent(s: Fs, i: nat, k: nat)
    requires Sound(s) && i in s.live && i in s.inodes && Managed(s.inodes[i]) && k < 15
    ensures Ptr(s.inodes[i], k) != 0 ==> Ptr(s.inodes[i], k) in s.used && Ptr(s.inodes[i], k) in s.data
  {
    hide Ptr, Managed, FileBlock;
    assert Ptr(s.inodes[i], k) != 0 ==> Owns(s, i, k, Ptr(s.inodes[i], k));
  }

  lemma FreeingEnds(s: Fs, c: Fs, now: Fs, d: nat, i: nat, img: Image)
    requires Parent(s, d) && i != d && i in s.live && i in s.inodes && Managed(s.inodes[i])
    requires exists was :: Freeing(s, c, now, i, was, 12) && img == Erased(was)
    ensures i in now.inodes && i in now.live
    ensures DropFile(s, i) == now.PutInode(i, img).DropInode(i)
    ensures Parent(DropFile(s, i), d) && DropFile(s, i).inodes[d] == s.inodes[d]
  {
    hide FullInv, Sound, Managed, Erased, OthersSame, Dir, Direct;
    var was :| Freeing(s, c, now, i, was, 12) && img == Erased(was);
    assert now.inodes[i := was][i := img] == now.inodes[i := img];
    DropFileKeeps(s, i);
    OtherParent(s, DropFile(s, i), i, d);
  }

  lemma DeleteIs(s: Fs, d: nat, name: seq<Byte>, i: nat)
    requires Parent(s, d) && i != d && i in s.live && i in s.inodes && Managed(s.inodes[i])
    requires Parent(DropFile(s, i), d)
    ensures DropFile(s, i).blockSize > 0 && DirOk(DropFile(s, i), DropFile(s, i).inodes[d])
    ensures Ext2Ops.DeleteFile(s, d, name, i) == RemoveEntry(DropFile(s, i), d, name)
  {
    hide Parent, DropFile, RemoveEntry, DirOk, Managed;
    ParentOk(DropFile(s, i), d);
  }
}
