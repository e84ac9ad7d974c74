/** File contents: the block map, who owns a block, and reading and writing bytes. */
module Ext2File {
  import opened Arith
  import opened Bytes
  import opened Ext2Bitmap
  import opened Ext2Fs
  import opened Ext2Inode
  import opened Ext2Volume

  /** ext2_get_file_block: direct pointers, then one indirect block, then nothing. */
  function FileBlock(s: Fs, img: Image, fb: nat): (b: nat)
    ensures b < TWO32
  {
    if fb < 12 then
      Ptr(img, fb)
    else if fb < 12 + s.blockSize / 4 then
      var ind := Ptr(img, 12);
      if ind == 0 || ind !in s.data || |s.data[ind]| < s.blockSize then 0 else Get32(s.data[ind], 4 * (fb - 12))
    else
      0
  }

  /** Block and offset of byte p of a file. */
  function BlockNo(p: nat, size: nat): nat
    requires size > 0
  {
    p / size
  }

  function BlockAt(p: nat, size: nat): (r: nat)
    requires size > 0
    ensures r < size
  {
    p % size
  }

  /** Byte p of the file; holes and everything beyond the block map read as zero. */
  function FileByte(s: Fs, img: Image, p: nat): Byte
    requires s.blockSize > 0
  {
    var b := FileBlock(s, img, BlockNo(p, s.blockSize));
    if b == 0 || b !in s.data || |s.data[b]| != s.blockSize then 0 else s.data[b][BlockAt(p, s.blockSize)]
  }

  // ----- ownership -----

  predicate Managed(img: Image) {
    IsReg(img) || IsDir(img)
  }

  /** Slots 0..14 are the pointers of the inode itself; 15 + k is entry k of its indirect block. */
  function SlotOf(s: Fs, img: Image, k: nat): nat {
    if k < 15 then Ptr(img, k) else FileBlock(s, img, 12 + (k - 15))
  }

  /** Slot k of the live file or directory i holds block b. */
  predicate Owns(s: Fs, i: nat, k: nat, b: nat) {
    i in s.live && i in s.inodes && Managed(s.inodes[i]) && b != 0 && SlotOf(s, s.inodes[i], k) == b
  }

  /** Owned blocks are data blocks marked in use. */
  ghost predicate OwnedUsed(s: Fs) {
    forall i, k, b | Owns(s, i, k, b) :: b in s.used && b in s.data
  }

  /** A block sits in one slot of one inode only. */
  ghost predicate OwnedOnce(s: Fs) {
    forall i, k, j, l, b | Owns(s, i, k, b) && Owns(s, j, l, b) :: i == j && k == l
  }

  /** Allocated bytes past the end of file are zero. */
  ghost predicate TailZero(s: Fs, img: Image)
    requires s.blockSize > 0
  {
    forall p: nat | p >= Size(img) :: FileByte(s, img, p) == 0
  }

  ghost predicate Sound(s: Fs) {
    s.Shape() && OwnedUsed(s) && OwnedOnce(s)
  }

  ghost predicate TailsZero(s: Fs, except: set<nat>)
    requires s.blockSize > 0
  {
    forall i | i in s.live && i in s.inodes && Managed(s.inodes[i]) && i !in except :: TailZero(s, s.inodes[i])
  }

  /** What every operation keeps about files. */
  ghost predicate Inv(s: Fs) {
    Sound(s) && TailsZero(s, {})
  }

  function FileSlot(fb: nat): nat {
    if fb < 12 then fb else fb + 3
  }

  // ----- changes that do not touch other files -----

  /** Rewriting a block that is nobody's indirect block changes no block map. */
  lemma PutDataBlocks(s: Fs, b: nat, blk: Block, j: nat, fb: nat)
    requires s.Shape() && b in s.data && |blk| == s.blockSize && !Owns(s, j, 12, b)
    requires j in s.live && j in s.inodes && Managed(s.inodes[j])
    ensures FileBlock(s.PutData(b, blk), s.inodes[j], fb) == FileBlock(s, s.inodes[j], fb)
  {
    hide Get32, Managed;
  }

  lemma PutDataOwns(s: Fs, b: nat, blk: Block)
    requires Sound(s) && b in s.data && |blk| == s.blockSize
    requires forall j :: !Owns(s, j, 12, b)
    ensures forall i, k, x :: Owns(s.PutData(b, blk), i, k, x) == Owns(s, i, k, x)
    ensures Sound(s.PutData(b, blk))
  {
    hide BlockNo, BlockAt, FileBlock, Managed, Ptr;
    var t := s.PutData(b, blk);
    forall i, k: nat, x ensures Owns(t, i, k, x) == Owns(s, i, k, x) {
      if k >= 15 && i in s.live && i in s.inodes && Managed(s.inodes[i]) {
        PutDataBlocks(s, b, blk, i, 12 + (k - 15));
      }
    }
    assert t.Shape();
  }

  /** Giving slot k of inode i, empty so far, a block that was free. */
  lemma AttachOwns(s: Fs, i: nat, k: nat, b: nat, img: Image)
    requires Sound(s) && i in s.live && i in s.inodes && Managed(s.inodes[i]) && Managed(img)
    requires k < 12 && b in s.data && b !in s.used
    requires forall j | 0 <= j < 15 :: Ptr(img, j) == if j == k then b else Ptr(s.inodes[i], j)
    requires s.firstBlock <= b < s.blocksCount
    ensures Sound(s.TakeBlock(b).PutInode(i, img))
    ensures forall fb: nat :: FileBlock(s.TakeBlock(b).PutInode(i, img), img, fb) == if fb == k then b else FileBlock(s, s.inodes[i], fb)
    ensures forall j, l, x | j != i :: Owns(s.TakeBlock(b).PutInode(i, img), j, l, x) == Owns(s, j, l, x)
    ensures forall j, x | x == b :: !Owns(s.TakeBlock(b).PutInode(i, img), j, 12, x)
  {
    hide Managed, Get32, Ptr;
    var t := s.TakeBlock(b).PutInode(i, img);
    forall fb: nat ensures FileBlock(t, img, fb) == if fb == k then b else FileBlock(s, s.inodes[i], fb) {
    }
    forall j, l: nat, x ensures Owns(t, j, l, x) <==> if j == i && l == k then x == b else Owns(s, j, l, x) {
    }
    assert t.Shape();
  }

  // ----- writing -----

  function Min(a: nat, b: nat): nat {
    if a <= b then a else b
  }

  datatype Step = Stop | Next(s: Fs, n: nat)

  /** The block the driver attaches to slot k of an inode, with the sector count it then records. */
  function Attach(s: Fs, img: Image, k: nat, b: nat): Image
    requires k < 12 && b < TWO32
  {
    var a := SetPtr(img, k, b);
    SetSectors(a, (Sectors(a) + s.blockSize / 512) % TWO32)
  }

  /** One round of the write loop at file offset cur, with `data` still to write. */
  function WriteStep(s: Fs, i: nat, data: seq<Byte>, cur: nat): (r: Step)
    requires s.Shape() && i in s.inodes && data != []
    ensures r.Next? ==> 0 < r.n <= |data| && i in r.s.inodes && r.s.Shape() && r.s.blockSize == s.blockSize
  {
    var fb, at := BlockNo(cur, s.blockSize), BlockAt(cur, s.blockSize);
    var n := Min(s.blockSize - at, |data|);
    var b := FileBlock(s, s.inodes[i], fb);
    if b != 0 then
      if b in s.data then Next(s.PutData(b, Splice(s.data[b], at, data[..n])), n) else Stop
    else
      var nb := s.NewBlock();
      FirstFreeBlockIs(s, s.firstBlock);
      if nb == 0 || fb >= 12 then Stop
      else Next(s.TakeBlock(nb).PutInode(i, Attach(s, s.inodes[i], fb, nb))
                 .PutData(nb, Splice(Blank(s.blockSize), at, data[..n])), n)
  }

  /** Block by block, the file has the same contents in both volumes. */
  ghost predicate SameFile(s: Fs, t: Fs, img: Image) {
    forall fb: nat :: SameBlockAt(s, t, img, fb)
  }

  predicate SameBlockAt(s: Fs, t: Fs, img: Image, fb: nat) {
    var b := FileBlock(s, img, fb);
    FileBlock(t, img, fb) == b && (b != 0 ==> b in s.data && b in t.data && t.data[b] == s.data[b])
  }

  /** Every inode but i is as it was, and so is the content of every other live file and directory. */
  ghost predicate OthersSame(s: Fs, t: Fs, i: nat) {
    && (forall j | j != i && j in s.inodes :: j in t.inodes && t.inodes[j] == s.inodes[j])
    && (forall j | j != i && j in s.live && j in s.inodes && Managed(s.inodes[j]) :: SameFile(s, t, s.inodes[j]))
  }

  lemma SameFileBytes(s: Fs, t: Fs, img: Image)
    requires s.blockSize > 0 && t.blockSize == s.blockSize && SameFile(s, t, img)
    ensures forall p: nat :: FileByte(t, img, p) == FileByte(s, img, p)
  {
    hide FileBlock, BlockNo, BlockAt;
    forall p: nat ensures FileByte(t, img, p) == FileByte(s, img, p) {
      assert SameBlockAt(s, t, img, BlockNo(p, s.blockSize));
    }
  }

  lemma SameFileTrans(s: Fs, t: Fs, u: Fs, img: Image)
    requires SameFile(s, t, img) && SameFile(t, u, img)
    ensures SameFile(s, u, img)
  {
    hide FileBlock;
    forall fb: nat ensures SameBlockAt(s, u, img, fb) {
      assert SameBlockAt(s, t, img, fb) && SameBlockAt(t, u, img, fb);
    }
  }

  lemma OthersSameTrans(s: Fs, t: Fs, u: Fs, i: nat)
    requires t.live == s.live && OthersSame(s, t, i) && OthersSame(t, u, i)
    ensures OthersSame(s, u, i)
  {
    hide Managed, SameFile;
    forall j | j != i && j in s.live && j in s.inodes && Managed(s.inodes[j]) ensures SameFile(s, u, s.inodes[j]) {
      SameFileTrans(s, t, u, s.inodes[j]);
    }
  }

  /** The bytes at [cur, cur + n) of file i become `data`; the rest of i, and every other file, stays. */
  ghost predicate Wrote(s: Fs, t: Fs, i: nat, cur: nat, data: seq<Byte>)
    requires s.blockSize > 0 && t.blockSize == s.blockSize
    requires i in s.inodes && i in t.inodes
  {
    && t.inodes.Keys == s.inodes.Keys && t.live == s.live
    && Size(t.inodes[i]) == Size(s.inodes[i]) && Mode(t.inodes[i]) == Mode(s.inodes[i])
    && (forall p: nat :: FileByte(t, t.inodes[i], p)
          == if cur <= p < cur + |data| then data[p - cur] else FileByte(s, s.inodes[i], p))
    && OthersSame(s, t, i)
  }

  lemma InBlock(p: nat, cur: nat, n: nat, size: nat)
    requires size > 0 && cur <= p < cur + n && n <= size - BlockAt(cur, size)
    ensures BlockNo(p, size) == BlockNo(cur, size) && BlockAt(p, size) == BlockAt(cur, size) + (p - cur)
  {
    var q, r := cur / size, cur % size;
    DivMod(q, r + (p - cur), size);
    assert p == q * size + (r + (p - cur));
  }

  /** Position p lies in [cur, cur + n) exactly when it lies in that stretch of the same block. */
  lemma SameBlock(p: nat, cur: nat, n: nat, size: nat)
    requires size > 0 && 0 < n <= size - BlockAt(cur, size)
    ensures cur <= p < cur + n
       <==> BlockNo(p, size) == BlockNo(cur, size) && BlockAt(cur, size) <= BlockAt(p, size) < BlockAt(cur, size) + n
    ensures cur <= p < cur + n ==> BlockAt(p, size) - BlockAt(cur, size) == p - cur
  {
    if cur <= p < cur + n {
      InBlock(p, cur, n, size);
    } else if BlockNo(p, size) == BlockNo(cur, size) {
      SameQuotient(p, cur, size);
    }
  }

  lemma SameQuotient(p: nat, q: nat, size: nat)
    requires size > 0 && p / size == q / size
    ensures p - q == p % size - q % size
  {
    var k := p / size;
    assert p == k * size + p % size && q == k * size + q % size;
  }

  /** Every slot of the file map is a slot of the inode. */
  lemma FileBlockOwned(s: Fs, i: nat, fb: nat)
    requires i in s.live && i in s.inodes && Managed(s.inodes[i])
    ensures FileBlock(s, s.inodes[i], fb) != 0 ==> Owns(s, i, FileSlot(fb), FileBlock(s, s.inodes[i], fb))
  {
  }

  /** Two files, or two places of one file, never share a block. */
  lemma FileBlocksApart(s: Fs, i: nat, fb: nat, j: nat, gb: nat)
    requires Sound(s)
    requires i in s.live && i in s.inodes && Managed(s.inodes[i])
    requires j in s.live && j in s.inodes && Managed(s.inodes[j])
    requires FileBlock(s, s.inodes[i], fb) == FileBlock(s, s.inodes[j], gb) != 0
    ensures i == j && fb == gb
  {
    FileBlockOwned(s, i, fb);
    FileBlockOwned(s, j, gb);
  }

  /** No file block is an indirect block. */
  lemma FileBlockNotIndirect(s: Fs, i: nat, fb: nat, j: nat)
    requires Sound(s) && i in s.live && i in s.inodes && Managed(s.inodes[i])
    requires FileBlock(s, s.inodes[i], fb) != 0
    ensures !Owns(s, j, 12, FileBlock(s, s.inodes[i], fb))
  {
    FileBlockOwned(s, i, fb);
  }

  /** The bytes of the block behind position fb of a file: a hole counts as a block of zeros. */
  function Old(s: Fs, img: Image, fb: nat): (blk: Block)
    requires s.Shape()
    ensures |blk| == s.blockSize
  {
    var b := FileBlock(s, img, fb);
    if b != 0 && b in s.data then s.data[b] else Blank(s.blockSize)
  }

  /** When block b, at position fb of the file and nowhere else in it, gets `data` at offset cur. */
  lemma BytesAfter(s: Fs, t: Fs, img: Image, img': Image, b: nat, cur: nat, data: seq<Byte>)
    requires s.Shape() && t.blockSize == s.blockSize && b != 0
    requires 0 < |data| <= s.blockSize - BlockAt(cur, s.blockSize)
    requires t.data == s.data[b := Splice(Old(s, img, BlockNo(cur, s.blockSize)), BlockAt(cur, s.blockSize), data)]
    requires forall gb: nat :: FileBlock(t, img', gb) == if gb == BlockNo(cur, s.blockSize) then b else FileBlock(s, img, gb)
    requires forall gb: nat | gb != BlockNo(cur, s.blockSize) :: FileBlock(s, img, gb) != b
    ensures forall p: nat :: FileByte(t, img', p)
              == if cur <= p < cur + |data| then data[p - cur] else FileByte(s, img, p)
  {
    hide BlockNo, BlockAt, FileBlock;
    forall p: nat ensures FileByte(t, img', p)
        == if cur <= p < cur + |data| then data[p - cur] else FileByte(s, img, p) {
      SameBlock(p, cur, |data|, s.blockSize);
    }
  }

  /** A live file none of whose blocks is b is the same after b is written. */
  lemma BytesKept(s: Fs, t: Fs, j: nat, b: nat, blk: Block)
    requires Sound(s) && j in s.live && j in s.inodes && Managed(s.inodes[j])
    requires t.data == s.data[b := blk]
    requires forall gb: nat :: FileBlock(t, s.inodes[j], gb) == FileBlock(s, s.inodes[j], gb)
                               && (FileBlock(s, s.inodes[j], gb) == b ==> b == 0)
    ensures SameFile(s, t, s.inodes[j])
  {
    hide FileBlock, Managed;
    forall gb: nat ensures SameBlockAt(s, t, s.inodes[j], gb) {
      FileBlockOwned(s, j, gb);
    }
  }

  /** Writing to a block of file i leaves the block map of every file j, and is seen by i alone. */
  lemma PutFileBlock(s: Fs, i: nat, fb: nat, blk: Block)
    requires Sound(s) && i in s.live && i in s.inodes && Managed(s.inodes[i]) && |blk| == s.blockSize
    requires FileBlock(s, s.inodes[i], fb) != 0
    ensures var b := FileBlock(s, s.inodes[i], fb); var t := s.PutData(b, blk);
      && b in s.data && Sound(t)
      && (forall j, gb: nat | j in s.live && j in s.inodes && Managed(s.inodes[j]) ::
            FileBlock(t, s.inodes[j], gb) == FileBlock(s, s.inodes[j], gb)
            && (FileBlock(s, s.inodes[j], gb) == b ==> j == i && gb == fb))
  {
    hide BlockNo, BlockAt, FileBlock, Managed;
    var b := FileBlock(s, s.inodes[i], fb);
    FileBlockOwned(s, i, fb);
    forall j ensures !Owns(s, j, 12, b) {
      FileBlockNotIndirect(s, i, fb, j);
    }
    PutDataOwns(s, b, blk);
    forall j, gb: nat | j in s.live && j in s.inodes && Managed(s.inodes[j])
      ensures FileBlock(s.PutData(b, blk), s.inodes[j], gb) == FileBlock(s, s.inodes[j], gb)
      ensures FileBlock(s, s.inodes[j], gb) == b ==> j == i && gb == fb
    {
      PutDataBlocks(s, b, blk, j, gb);
      if FileBlock(s, s.inodes[j], gb) == b {
        FileBlocksApart(s, i, fb, j, gb);
      }
    }
  }

  /** The same, seen from the other files. */
  lemma PutFileBlockOthers(s: Fs, i: nat, fb: nat, blk: Block)
    requires Sound(s) && i in s.live && i in s.inodes && Managed(s.inodes[i]) && |blk| == s.blockSize
    requires FileBlock(s, s.inodes[i], fb) != 0
    ensures OthersSame(s, s.PutData(FileBlock(s, s.inodes[i], fb), blk), i)
  {
    hide FileBlock, Managed, Sound, SameFile;
    var t := s.PutData(FileBlock(s, s.inodes[i], fb), blk);
    PutFileBlock(s, i, fb, blk);
    forall j | j != i && j in s.live && j in s.inodes && Managed(s.inodes[j]) ensures SameFile(s, t, s.inodes[j]) {
      BytesKept(s, t, j, FileBlock(s, s.inodes[i], fb), blk);
    }
  }

  /** Overwriting part of a block the file has. */
  lemma OverwriteStep(s: Fs, i: nat, data: seq<Byte>, cur: nat)
    requires Sound(s) && i in s.live && i in s.inodes && Managed(s.inodes[i])
    requires 0 < |data| <= s.blockSize - BlockAt(cur, s.blockSize)
    requires FileBlock(s, s.inodes[i], BlockNo(cur, s.blockSize)) != 0
    ensures var b := FileBlock(s, s.inodes[i], BlockNo(cur, s.blockSize));
      && b in s.data
      && Sound(s.PutData(b, Splice(s.data[b], BlockAt(cur, s.blockSize), data)))
      && Wrote(s, s.PutData(b, Splice(s.data[b], BlockAt(cur, s.blockSize), data)), i, cur, data)
  {
    hide BlockNo, BlockAt, FileBlock, Managed, Splice, OthersSame;
    var fb := BlockNo(cur, s.blockSize);
    var b := FileBlock(s, s.inodes[i], fb);
    FileBlockOwned(s, i, fb);
    var blk := Splice(s.data[b], BlockAt(cur, s.blockSize), data);
    var t := s.PutData(b, blk);
    PutFileBlock(s, i, fb, blk);
    PutFileBlockOthers(s, i, fb, blk);
    BytesAfter(s, t, s.inodes[i], t.inodes[i], b, cur, data);
  }

  lemma AttachFields(s: Fs, img: Image, k: nat, b: nat)
    requires k < 12 && b < TWO32
    ensures forall j | 0 <= j < 15 :: Ptr(Attach(s, img, k, b), j) == if j == k then b else Ptr(img, j)
    ensures Size(Attach(s, img, k, b)) == Size(img) && Mode(Attach(s, img, k, b)) == Mode(img)
  {
    hide Get32, Put32, Get16, Ptr, Size, Mode, SetPtr, SetSectors;
    var a := SetPtr(img, k, b);
    forall j: nat | j < 15 ensures Ptr(Attach(s, img, k, b), j) == if j == k then b else Ptr(img, j) {
      FieldsApart(img, k, b, j);
      FieldsApart(a, k, (Sectors(a) + s.blockSize / 512) % TWO32, j);
    }
    FieldsApart(img, k, b, 0);
    FieldsApart(a, k, (Sectors(a) + s.blockSize / 512) % TWO32, 0);
  }

  /**
   Taking a free block for an empty slot of inode i and filling it: still sound, the block map of i
   grows by that block, and the other files stay.
   */
  lemma AttachAndFill(s: Fs, i: nat, k: nat, b: nat, img: Image, blk: Block)
    requires Sound(s) && i in s.live && i in s.inodes && Managed(s.inodes[i]) && Managed(img)
    requires k < 12 && b in s.data && b !in s.used && s.firstBlock <= b < s.blocksCount && |blk| == s.blockSize
    requires forall j | 0 <= j < 15 :: Ptr(img, j) == if j == k then b else Ptr(s.inodes[i], j)
    ensures var t := s.TakeBlock(b).PutInode(i, img).PutData(b, blk);
      && Sound(t) && OthersSame(s, t, i)
      && (forall gb: nat :: FileBlock(t, img, gb) == if gb == k then b else FileBlock(s, s.inodes[i], gb))
      && (forall gb: nat :: FileBlock(s, s.inodes[i], gb) != b)
  {
    hide FileBlock, Ptr, Managed, SameFile;
    var u := s.TakeBlock(b).PutInode(i, img);
    AttachOwns(s, i, k, b, img);
    var t := u.PutData(b, blk);
    PutFileBlock(u, i, k, blk);
    forall j, gb: nat | j in s.live && j in s.inodes && Managed(s.inodes[j]) ensures FileBlock(s, s.inodes[j], gb) != b {
      FileBlockOwned(s, j, gb);
    }
    forall j | j != i && j in s.live && j in s.inodes && Managed(s.inodes[j]) ensures SameFile(s, t, s.inodes[j]) {
      forall gb: nat ensures FileBlock(t, s.inodes[j], gb) == FileBlock(s, s.inodes[j], gb) {
        TakenElsewhere(s, u, s.inodes[j], gb);
      }
      BytesKept(s, t, j, b, blk);
    }
  }

  lemma TakenElsewhere(s: Fs, u: Fs, img: Image, gb: nat)
    requires u.data == s.data && u.blockSize == s.blockSize
    ensures FileBlock(u, img, gb) == FileBlock(s, img, gb)
  {
  }

  /** Filling a hole with a freshly allocated block. */
  lemma AttachStep(s: Fs, i: nat, data: seq<Byte>, cur: nat)
    requires Sound(s) && i in s.live && i in s.inodes && Managed(s.inodes[i])
    requires 0 < |data| <= s.blockSize - BlockAt(cur, s.blockSize)
    requires BlockNo(cur, s.blockSize) < 12 && FileBlock(s, s.inodes[i], BlockNo(cur, s.blockSize)) == 0
    requires s.NewBlock() != 0
    ensures s.NewBlock() < TWO32
    ensures var nb := s.NewBlock();
      var t := s.TakeBlock(nb).PutInode(i, Attach(s, s.inodes[i], BlockNo(cur, s.blockSize), nb))
                .PutData(nb, Splice(Blank(s.blockSize), BlockAt(cur, s.blockSize), data));
      Sound(t) && Wrote(s, t, i, cur, data)
  {
    hide BlockNo, BlockAt, FileBlock, Splice, Attach, OthersSame, Ptr, Mode, Size, Managed;
    var fb, nb := BlockNo(cur, s.blockSize), s.NewBlock();
    FirstFreeBlockIs(s, s.firstBlock);
    var img' := Attach(s, s.inodes[i], fb, nb);
    AttachFields(s, s.inodes[i], fb, nb);
    SameModeManaged(s.inodes[i], img');
    var blk := Splice(Blank(s.blockSize), BlockAt(cur, s.blockSize), data);
    AttachAndFill(s, i, fb, nb, img', blk);
    var t := s.TakeBlock(nb).PutInode(i, img').PutData(nb, blk);
    BytesAfter(s, t, s.inodes[i], img', nb, cur, data);
  }

  lemma WriteStepWrites(s: Fs, i: nat, data: seq<Byte>, cur: nat)
    requires Sound(s) && i in s.live && i in s.inodes && Managed(s.inodes[i]) && data != []
    ensures var r := WriteStep(s, i, data, cur);
      && (r.Next? ==> Sound(r.s) && Wrote(s, r.s, i, cur, data[..r.n]))
      && (r.Stop? <==> Unfillable(s, s.inodes[i], BlockNo(cur, s.blockSize)))
  {
    hide BlockNo, BlockAt, Sound, Managed, Attach, Fs.NewBlock, Splice, Blank, Wrote, FileBlock;
    SoundShape(s);
    var n := Min(s.blockSize - BlockAt(cur, s.blockSize), |data|);
    if FileBlock(s, s.inodes[i], BlockNo(cur, s.blockSize)) != 0 {
      OverwriteStep(s, i, data[..n], cur);
    } else if s.NewBlock() != 0 && BlockNo(cur, s.blockSize) < 12 {
      AttachStep(s, i, data[..n], cur);
    }
  }

  lemma WroteTrans(s: Fs, t: Fs, u: Fs, i: nat, cur: nat, a: seq<Byte>, b: seq<Byte>)
    requires s.blockSize > 0 && t.blockSize == s.blockSize && u.blockSize == s.blockSize
    requires i in s.inodes && i in t.inodes && i in u.inodes
    requires Wrote(s, t, i, cur, a) && Wrote(t, u, i, cur + |a|, b)
    ensures Wrote(s, u, i, cur, a + b)
  {
    hide FileByte, Size, Mode, OthersSame;
    OthersSameTrans(s, t, u, i);
  }

  datatype Written = Written(s: Fs, n: nat)

  /** The whole loop: what it leaves, and how many bytes it wrote. */
  function WriteLoop(s: Fs, i: nat, data: seq<Byte>, cur: nat): Written
    requires s.Shape() && i in s.inodes
    decreases |data|
  {
    if data == [] then Written(s, 0) else
    match WriteStep(s, i, data, cur)
    case Stop => Written(s, 0)
    case Next(t, n) =>
      var r := WriteLoop(t, i, data[n..], cur + n);
      Written(r.s, n + r.n)
  }

  lemma SameModeManaged(a: Image, b: Image)
    requires Mode(a) == Mode(b)
    ensures Managed(a) == Managed(b) && IsReg(a) == IsReg(b) && IsDir(a) == IsDir(b)
  {
  }

  lemma WriteLoopNext(s: Fs, i: nat, data: seq<Byte>, cur: nat, t: Fs, n: nat)
    requires s.Shape() && i in s.inodes && data != [] && WriteStep(s, i, data, cur) == Next(t, n)
    ensures 0 < n <= |data| && t.Shape() && i in t.inodes && t.blockSize == s.blockSize
    ensures WriteLoop(s, i, data, cur).s == WriteLoop(t, i, data[n..], cur + n).s
    ensures WriteLoop(s, i, data, cur).n == n + WriteLoop(t, i, data[n..], cur + n).n
  {
    hide WriteStep, Fs.Shape;
  }

  lemma WriteLoopStop(s: Fs, i: nat, data: seq<Byte>, cur: nat)
    requires s.Shape() && i in s.inodes && (data == [] || WriteStep(s, i, data, cur).Stop?)
    ensures WriteLoop(s, i, data, cur) == Written(s, 0)
  {
    hide WriteStep, Fs.Shape;
  }

  lemma SoundShape(s: Fs)
    requires Sound(s)
    ensures s.Shape() && s.blockSize > 0
  {
  }

  lemma WroteNothing(s: Fs, i: nat, cur: nat)
    requires s.blockSize > 0 && i in s.inodes
    requires Sound(s)
    ensures Wrote(s, s, i, cur, [])
  {
    hide FileByte, FileBlock, Managed;
    forall j, fb: nat | j in s.live && j in s.inodes && Managed(s.inodes[j]) ensures SameBlockAt(s, s, s.inodes[j], fb) {
      FileBlockOwned(s, j, fb);
    }
  }

  lemma WroteKeepsKind(s: Fs, t: Fs, i: nat, cur: nat, data: seq<Byte>)
    requires s.blockSize > 0 && t.blockSize == s.blockSize && i in s.inodes && i in t.inodes
    requires Wrote(s, t, i, cur, data)
    ensures t.live == s.live && Managed(t.inodes[i]) == Managed(s.inodes[i])
  {
    SameModeManaged(s.inodes[i], t.inodes[i]);
  }

  /** The loop writes a prefix of the data, and only that. */
  lemma {:induction false} WriteLoopWrites(s: Fs, i: nat, data: seq<Byte>, cur: nat)
    requires Sound(s) && i in s.live && i in s.inodes && Managed(s.inodes[i])
    ensures WriteLoop(s, i, data, cur).n <= |data|
    ensures WriteLoop(s, i, data, cur).s.blockSize == s.blockSize && i in WriteLoop(s, i, data, cur).s.inodes
    ensures Sound(WriteLoop(s, i, data, cur).s)
    ensures Wrote(s, WriteLoop(s, i, data, cur).s, i, cur, data[..WriteLoop(s, i, data, cur).n])
    decreases |data|
  {
    hide *;
    SoundShape(s);
    if data == [] {
      WriteLoopStop(s, i, data, cur);
      WroteNothing(s, i, cur);
    } else {
      WriteStepWrites(s, i, data, cur);
      match WriteStep(s, i, data, cur)
      case Stop =>
        WriteLoopStop(s, i, data, cur);
        WroteNothing(s, i, cur);
      case Next(t, n) =>
        WriteLoopNext(s, i, data, cur, t, n);
        WroteKeepsKind(s, t, i, cur, data[..n]);
        WriteLoopWrites(t, i, data[n..], cur + n);
        var r := WriteLoop(t, i, data[n..], cur + n);
        WroteTrans(s, t, r.s, i, cur, data[..n], data[n..][..r.n]);
        assert data[..n] + data[n..][..r.n] == data[..n + r.n];
    }
  }

  /** Block fb of a file is a hole that the driver cannot fill. */
  predicate Unfillable(s: Fs, img: Image, fb: nat) {
    FileBlock(s, img, fb) == 0 && (s.NewBlock() == 0 || fb >= 12)
  }

  /** It falls short only at a hole it cannot fill: the volume is full, or no direct pointer reaches there. */
  lemma {:induction false} WriteLoopShort(s: Fs, i: nat, data: seq<Byte>, cur: nat)
    requires Sound(s) && i in s.live && i in s.inodes && Managed(s.inodes[i])
    requires WriteLoop(s, i, data, cur).n < |data|
    ensures i in WriteLoop(s, i, data, cur).s.inodes && s.blockSize > 0
    ensures Unfillable(WriteLoop(s, i, data, cur).s, WriteLoop(s, i, data, cur).s.inodes[i], BlockNo(cur + WriteLoop(s, i, data, cur).n, s.blockSize))
    decreases |data|
  {
    hide *;
    SoundShape(s);
    WriteStepWrites(s, i, data, cur);
    match WriteStep(s, i, data, cur)
    case Stop =>
      WriteLoopStop(s, i, data, cur);
    case Next(t, n) =>
      WriteLoopNext(s, i, data, cur, t, n);
      WroteKeepsKind(s, t, i, cur, data[..n]);
      WriteLoopShort(t, i, data[n..], cur + n);
  }

  /** ext2_write_file: the loop, then the new size when the file grew. */
  function WriteFile(s: Fs, i: nat, data: seq<Byte>, off: nat): Written
    requires s.Shape() && i in s.inodes && off + |data| < TWO32
  {
    var r := WriteLoop(s, i, data, off);
    if i in r.s.inodes && Size(r.s.inodes[i]) < off + r.n < TWO32 then
      r.(s := r.s.PutInode(i, SetSize(r.s.inodes[i], off + r.n)))
    else
      r
  }

  // ----- contents -----

  function Content(s: Fs, img: Image): seq<Byte>
    requires s.blockSize > 0
  {
    seq(Size(img), p requires 0 <= p => FileByte(s, img, p))
  }

  /** `was` extended with zeros to cover [off, off + |d|), with d laid over it there. */
  function Overlay(was: seq<Byte>, off: nat, d: seq<Byte>): seq<Byte> {
    seq(if off + |d| > |was| then off + |d| else |was|,
        p requires 0 <= p => if off <= p < off + |d| then d[p - off] else if p < |was| then was[p] else 0)
  }

  // ----- the write, as seen from outside -----

  /** Same block pointers and file type. */
  ghost predicate SameMap(a: Image, b: Image) {
    Managed(a) == Managed(b) && forall j | 0 <= j < 15 :: Ptr(a, j) == Ptr(b, j)
  }

  lemma SameMapBlocks(s: Fs, t: Fs, a: Image, b: Image, fb: nat)
    requires SameMap(a, b) && t.data == s.data && t.blockSize == s.blockSize
    ensures FileBlock(t, b, fb) == FileBlock(s, a, fb)
  {
    hide Ptr, Managed, Get32;
  }

  lemma SameMapBytes(s: Fs, t: Fs, a: Image, b: Image)
    requires s.blockSize > 0 && SameMap(a, b) && t.data == s.data && t.blockSize == s.blockSize
    ensures forall p: nat :: FileByte(t, b, p) == FileByte(s, a, p)
  {
    hide FileBlock, SameMap, BlockNo, BlockAt;
    forall fb: nat ensures FileBlock(t, b, fb) == FileBlock(s, a, fb) {
      SameMapBlocks(s, t, a, b, fb);
    }
  }

  /** Replacing an inode by one with the same pointers changes no owner. */
  lemma ReplaceInode(s: Fs, i: nat, img: Image)
    requires Sound(s) && i in s.inodes && SameMap(s.inodes[i], img)
    ensures Sound(s.PutInode(i, img))
    ensures forall j, k, b :: Owns(s.PutInode(i, img), j, k, b) == Owns(s, j, k, b)
  {
    hide FileBlock, Ptr, Managed;
    var t := s.PutInode(i, img);
    forall j, k: nat, b ensures Owns(t, j, k, b) == Owns(s, j, k, b) {
      if k >= 15 && j in s.inodes {
        SameMapBlocks(s, t, s.inodes[j], t.inodes[j], 12 + (k - 15));
      }
    }
    assert t.Shape();
  }

  lemma ResizeKeepsMap(img: Image, n: nat)
    requires n < TWO32
    ensures SameMap(img, SetSize(img, n)) && Size(SetSize(img, n)) == n && Mode(SetSize(img, n)) == Mode(img)
  {
    hide Get32, Put32, Get16;
    forall j: nat | j < 15 ensures Ptr(SetSize(img, n), j) == Ptr(img, j) {
      FieldsApart(img, 0, n, j);
    }
    FieldsApart(img, 0, n, 0);
  }

  /** After the write: the size, the bytes of the file, and nothing else in the volume's files. */
  ghost predicate WroteFile(s: Fs, t: Fs, i: nat, off: nat, data: seq<Byte>)
    requires s.blockSize > 0 && t.blockSize == s.blockSize && i in s.inodes && i in t.inodes
  {
    && t.live == s.live && t.inodes.Keys == s.inodes.Keys
    && Mode(t.inodes[i]) == Mode(s.inodes[i])
    && Size(t.inodes[i]) == (if Size(s.inodes[i]) < off + |data| then off + |data| else Size(s.inodes[i]))
    && (forall p: nat :: FileByte(t, t.inodes[i], p)
          == if off <= p < off + |data| then data[p - off] else FileByte(s, s.inodes[i], p))
    && OthersSame(s, t, i)
  }

  lemma GrowFile(s: Fs, t: Fs, i: nat, off: nat, data: seq<Byte>)
    requires Sound(t) && s.blockSize > 0 && t.blockSize == s.blockSize && i in s.inodes && i in t.inodes
    requires i in s.live && Wrote(s, t, i, off, data) && Size(t.inodes[i]) < off + |data| < TWO32
    ensures var u := t.PutInode(i, SetSize(t.inodes[i], off + |data|));
            u.blockSize == s.blockSize && i in u.inodes && Sound(u) && WroteFile(s, u, i, off, data)
  {
    hide FileByte, SetSize, Size, Mode, Sound, SameMap, OthersSame;
    var u := t.PutInode(i, SetSize(t.inodes[i], off + |data|));
    ResizeKeepsMap(t.inodes[i], off + |data|);
    ReplaceInode(t, i, u.inodes[i]);
    SameMapBytes(t, u, t.inodes[i], u.inodes[i]);
    ReplaceInodeOthers(s, t, i, u.inodes[i]);
  }

  /** Changing inode i again is invisible to the others. */
  lemma ReplaceInodeOthers(s: Fs, t: Fs, i: nat, img: Image)
    requires OthersSame(s, t, i) && i in t.inodes
    ensures OthersSame(s, t.PutInode(i, img), i)
  {
    hide FileBlock, Managed;
    var u := t.PutInode(i, img);
    forall j, fb: nat | j != i && j in s.live && j in s.inodes && Managed(s.inodes[j])
      ensures SameBlockAt(s, u, s.inodes[j], fb)
    {
      assert SameFile(s, t, s.inodes[j]);
      assert SameBlockAt(s, t, s.inodes[j], fb);
      TakenElsewhere(t, u, s.inodes[j], fb);
    }
  }

  lemma WroteNoGrowth(s: Fs, t: Fs, i: nat, off: nat, data: seq<Byte>)
    requires s.blockSize > 0 && t.blockSize == s.blockSize && i in s.inodes && i in t.inodes
    requires Wrote(s, t, i, off, data) && off + |data| <= Size(t.inodes[i])
    ensures WroteFile(s, t, i, off, data)
  {
    hide FileByte, OthersSame, Size, Mode;
  }

  /** Bytes past the end of every file stay zero. */
  lemma WroteFileTails(s: Fs, t: Fs, i: nat, off: nat, data: seq<Byte>)
    requires s.blockSize > 0 && t.blockSize == s.blockSize && i in s.inodes && i in t.inodes
    requires i in s.live && Managed(s.inodes[i]) && TailsZero(s, {}) && WroteFile(s, t, i, off, data)
    ensures TailsZero(t, {})
  {
    hide FileByte, Managed, Size, Mode, SameFile;
    forall j | j in t.live && j in t.inodes && Managed(t.inodes[j]) ensures TailZero(t, t.inodes[j]) {
      if j == i {
        assert TailZero(s, s.inodes[i]);
      } else {
        assert TailZero(s, s.inodes[j]);
        SameFileBytes(s, t, s.inodes[j]);
      }
    }
  }

  lemma WriteFileCases(s: Fs, i: nat, data: seq<Byte>, off: nat)
    requires s.Shape() && i in s.inodes && off + |data| < TWO32
    ensures var r := WriteLoop(s, i, data, off); i in r.s.inodes && r.n <= |data| ==>
      WriteFile(s, i, data, off).n == r.n
      && WriteFile(s, i, data, off).s
         == if Size(r.s.inodes[i]) < off + r.n then r.s.PutInode(i, SetSize(r.s.inodes[i], off + r.n)) else r.s
  {
    hide WriteLoop, SetSize, Size, Fs.Shape;
  }

  lemma InvParts(s: Fs)
    requires Inv(s)
    ensures s.blockSize > 0 && s.Shape() && Sound(s) && TailsZero(s, {})
  {
  }

  lemma InvFrom(s: Fs)
    requires Sound(s) && s.blockSize > 0 && TailsZero(s, {})
    ensures Inv(s)
  {
  }

  /**
   The file refinement: a write of `data` at `off` that returns n replaces bytes [off, off + n) by
   data[..n], zero-fills any gap it opens, grows the size to at least off + n, and changes no other
   file; ownership and the zero tails are kept.
   */
  lemma WriteFileRefines(s: Fs, i: nat, data: seq<Byte>, off: nat)
    requires Inv(s) && i in s.live && i in s.inodes && Managed(s.inodes[i]) && off + |data| < TWO32
    ensures WriteFile(s, i, data, off).n <= |data| && WriteFile(s, i, data, off).s.blockSize == s.blockSize
    ensures i in WriteFile(s, i, data, off).s.inodes && s.blockSize > 0
    ensures Inv(WriteFile(s, i, data, off).s)
    ensures WroteFile(s, WriteFile(s, i, data, off).s, i, off, data[..WriteFile(s, i, data, off).n])
  {
    hide *;
    InvParts(s);
    WriteLoopWrites(s, i, data, off);
    WriteFileCases(s, i, data, off);
    var r := WriteLoop(s, i, data, off);
    var w := WriteFile(s, i, data, off);
    if Size(r.s.inodes[i]) < off + r.n {
      GrowFile(s, r.s, i, off, data[..r.n]);
    } else {
      WroteNoGrowth(s, r.s, i, off, data[..r.n]);
    }
    WroteFileTails(s, w.s, i, off, data[..r.n]);
    InvFrom(w.s);
  }

  lemma ContentIs(s: Fs, img: Image)
    requires s.blockSize > 0
    ensures |Content(s, img)| == Size(img)
    ensures forall p | 0 <= p < Size(img) :: Content(s, img)[p] == FileByte(s, img, p)
  {
    hide FileByte, Size;
  }

  lemma OverlayIs(was: seq<Byte>, off: nat, d: seq<Byte>, now: seq<Byte>)
    requires |now| == if |was| < off + |d| then off + |d| else |was|
    requires forall p | 0 <= p < |now| ::
               now[p] == if off <= p < off + |d| then d[p - off] else if p < |was| then was[p] else 0
    ensures now == Overlay(was, off, d)
  {
  }

  /** The same as an equation between byte sequences. */
  lemma WriteFileContent(s: Fs, i: nat, data: seq<Byte>, off: nat)
    requires Inv(s) && i in s.live && i in s.inodes && Managed(s.inodes[i]) && off + |data| < TWO32
    ensures s.blockSize > 0 && WriteFile(s, i, data, off).s.blockSize == s.blockSize
    ensures i in WriteFile(s, i, data, off).s.inodes && WriteFile(s, i, data, off).n <= |data|
    ensures Content(WriteFile(s, i, data, off).s, WriteFile(s, i, data, off).s.inodes[i])
         == Overlay(Content(s, s.inodes[i]), off, data[..WriteFile(s, i, data, off).n])
    ensures forall j | j != i && j in s.live && j in s.inodes && Managed(s.inodes[j]) ::
              j in WriteFile(s, i, data, off).s.inodes
              && Content(WriteFile(s, i, data, off).s, WriteFile(s, i, data, off).s.inodes[j]) == Content(s, s.inodes[j])
  {
    hide WriteFile, Content, FileByte, Overlay, Size, Managed, Inv, Mode, SameFile;
    InvParts(s);
    WriteFileRefines(s, i, data, off);
    var w := WriteFile(s, i, data, off);
    ContentIs(s, s.inodes[i]);
    ContentIs(w.s, w.s.inodes[i]);
    InvTail(s, i);
    OverlayIs(Content(s, s.inodes[i]), off, data[..w.n], Content(w.s, w.s.inodes[i]));
    forall j | j != i && j in s.live && j in s.inodes && Managed(s.inodes[j])
      ensures Content(w.s, w.s.inodes[j]) == Content(s, s.inodes[j])
    {
      SameFileBytes(s, w.s, s.inodes[j]);
      ContentIs(s, s.inodes[j]);
      ContentIs(w.s, s.inodes[j]);
    }
  }

  lemma InvTail(s: Fs, i: nat)
    requires Inv(s) && i in s.live && i in s.inodes && Managed(s.inodes[i])
    ensures s.blockSize > 0
    ensures forall p: nat | p >= Size(s.inodes[i]) :: FileByte(s, s.inodes[i], p) == 0
  {
    hide FileByte, Size, Managed, Sound;
    InvParts(s);
    assert TailZero(s, s.inodes[i]);
  }

  // ----- reading -----

  /** How many bytes ext2_read_file copies; the sum wraps at 32 bits as it does there. */
  function ToRead(size: nat, off: nat, isize: nat): nat {
    if off >= isize then 0 else if (off + size) % TWO32 > isize then isize - off else size
  }

  /** The count is right exactly when the sum does not wrap or the offset is behind the end anyway. */
  lemma ToReadRightIff(size: nat, off: nat, isize: nat)
    requires size < TWO32 && off < TWO32 && isize < TWO32
    ensures ToRead(size, off, isize) == (if off >= isize then 0 else Min(size, isize - off))
       <==> off >= isize || off + size < TWO32
  {
  }

  /** An input on which it is wrong: offset 2 and size 2^32 - 1 in a file of 10 bytes ask for 2^32 - 1 bytes. */
  lemma ToReadWraps()
    ensures ToRead(TWO32 - 1, 2, 10) == TWO32 - 1 && ToRead(TWO32 - 1, 2, 10) > 10 - 2
  {
  }
}
