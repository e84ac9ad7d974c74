/**
 The on-disk formats of ext2 byte by byte, and a file's contents as the blocks of its pointer list:
 what the field accessors and the block map of the other modules mean on raw bytes.
 */
module Ext2Layout {
  import opened Arith
  import opened Bits
  import opened Bytes
  import opened Ext2Bitmap
  import opened Ext2Dir
  import opened Ext2File
  import opened Ext2Fs
  import opened Ext2Inode
  import opened Ext2Ops
  import opened Ext2Records
  import opened Ext2Volume

  // ----- bitmaps and inode slots -----

  /** Item k of a bitmap is bit k % 8, counted from the low end, of byte k / 8. */
  lemma BitmapLayout(bm: Block, k: nat)
    requires k < 8 * |bm|
    ensures Taken(bm, k) <==> bm[k / 8] as int / Pow2(k % 8) % 2 == 1
  {
    BitOfIs(bm[k / 8], k % 8);
  }

  /** Counted from 0, inode number i - 1 is entry k of group g's table, which starts at the block the descriptor names. */
  lemma SlotLayout(v: Volume, i: nat)
    requires v.Geometry() && v.Placed() && ValidIno(v, i)
    ensures v.inodesPerGroup > 0 && GroupOf(v, i) < |v.groups|
    ensures i - 1 == GroupOf(v, i) * v.inodesPerGroup + IndexOf(v, i) && IndexOf(v, i) < v.inodesPerGroup
    ensures InodeBlock(v, i) * v.blockSize + InodeOffset(v, i) == v.groups[GroupOf(v, i)].inodeTable * v.blockSize + IndexOf(v, i) * v.inodeSize
    ensures InodeOffset(v, i) + 128 <= v.blockSize
  {
    hide Volume.Geometry, Volume.Placed, SlotBlock, SlotOffset, Volume.InodesPerBlock, Volume.InodeSpan, GroupOf, IndexOf;
    PerGroup(v);
    GroupBound(v, i);
    SlotPlace(v, i);
    SlotBytes(v.groups[GroupOf(v, i)].inodeTable, IndexOf(v, i), v.inodeSize, v.blockSize);
  }

  lemma PerGroup(v: Volume)
    requires v.Geometry()
    ensures v.inodesPerGroup > 0
  {
  }

  lemma SlotBytes(table: nat, idx: nat, size: nat, blockSize: nat)
    requires blockSize > 0
    ensures (table + SlotBlock(idx, size, blockSize)) * blockSize + SlotOffset(idx, size, blockSize) == table * blockSize + idx * size
  {
    var x := idx * size;
    assert x == x / blockSize * blockSize + x % blockSize;
    assert (table + x / blockSize) * blockSize == table * blockSize + x / blockSize * blockSize;
  }

  // ----- inode fields -----

  lemma InodeLayout(img: Image)
    ensures Mode(img) == Le16(img, 0) && Size(img) == Le32(img, 4) && Links(img) == Le16(img, 26) && Sectors(img) == Le32(img, 28)
    ensures forall k: nat | k < 15 :: Ptr(img, k) == Le32(img, 40 + 4 * k)
  {
    hide Get16, Get32, Le16, Le32;
    GetIs(img, 0);
    GetIs(img, 4);
    GetIs(img, 26);
    GetIs(img, 28);
    forall k: nat | k < 15 ensures Ptr(img, k) == Le32(img, 40 + 4 * k) {
      GetIs(img, 40 + 4 * k);
    }
  }

  /** A new inode: mode at 0, uid at 2, gid at 24, link count at 26, zeros elsewhere. */
  lemma FreshLayout(mode: nat, uid: nat, gid: nat, links: nat)
    requires mode < 0x1_0000 && uid < 0x1_0000 && gid < 0x1_0000 && links < 0x1_0000
    ensures var img := FreshInode(mode, uid, gid, links);
      && Le16(img, 0) == mode && Le16(img, 2) == uid && Le16(img, 24) == gid && Le16(img, 26) == links
      && forall k: nat | 4 <= k < 24 || 28 <= k < 128 :: img[k] == 0
  {
    hide Put16, Blank;
    var a := Put16(Blank(128), 0, mode);
    var b := Put16(a, 2, uid);
    var c := Put16(b, 24, gid);
    PutIs(Blank(128), 0, mode);
    PutIs(a, 2, uid);
    PutIs(b, 24, gid);
    PutIs(c, 26, links);
  }

  /** i_links_count++ on 16 bits, and no other byte. */
  lemma LinkedLayout(img: Image)
    ensures Le16(Linked(img), 26) == (Le16(img, 26) + 1) % 0x1_0000 && OnlyAt(img, Linked(img), 26, 2)
  {
    hide Put16, Get16, Le16;
    GetIs(img, 26);
    PutIs(img, 26, (Links(img) + 1) % 0x1_0000);
  }

  /** Deletion: size, link count and sector count 0, deletion time 1, and every other byte as it was. */
  lemma ErasedLayout(img: Image)
    ensures Le32(Erased(img), 4) == 0 && Le32(Erased(img), 20) == 1 && Le16(Erased(img), 26) == 0 && Le32(Erased(img), 28) == 0
    ensures forall k: nat | k < 4 || 8 <= k < 20 || 24 <= k < 26 || 32 <= k < 128 :: Erased(img)[k] == img[k]
  {
    hide Put16, Put32;
    var a := Put32(img, 4, 0);
    var b := Put32(a, 28, 0);
    var c := Put16(b, 26, 0);
    PutIs(img, 4, 0);
    PutIs(a, 28, 0);
    PutIs(b, 26, 0);
    PutIs(c, 20, 1);
  }

  /** A block attached to a file: its pointer and the sector count, and no other byte. */
  lemma AttachLayout(s: Fs, img: Image, k: nat, b: nat)
    requires k < 12 && b < TWO32
    ensures var r := Attach(s, img, k, b);
      && Le32(r, 40 + 4 * k) == b && Le32(r, 28) == (Le32(img, 28) + s.blockSize / 512) % TWO32
      && forall o: nat | o < 128 && !(40 + 4 * k <= o < 44 + 4 * k) && !(28 <= o < 32) :: r[o] == img[o]
  {
    hide Put32, Get32, Le32;
    var a := SetPtr(img, k, b);
    var n := (Sectors(a) + s.blockSize / 512) % TWO32;
    PutIs(img, 40 + 4 * k, b);
    PutIs(a, 28, n);
    GetIs(a, 28);
    SameLe32(img, a, 28);
    SameLe32(a, Attach(s, img, k, b), 40 + 4 * k);
  }

  lemma SameLe32(a: seq<Byte>, b: seq<Byte>, o: nat)
    requires |a| == |b| && o + 4 <= |a| && forall k | o <= k < o + 4 :: b[k] == a[k]
    ensures Le32(b, o) == Le32(a, o)
  {
  }

  // ----- directory records -----

  /** inode number, record length, name length, file type, name. */
  lemma RecordLayout(blk: Block, o: nat, ino: nat, len: nat, name: seq<Byte>, kind: Byte)
    requires ino < TWO32 && len < 0x1_0000 && |name| < 256 && o + 8 + |name| <= |blk|
    ensures var r := PutRec(blk, o, ino, len, name, kind);
      && Le32(r, o) == ino && Le16(r, o + 4) == len && r[o + 6] as int == |name| && r[o + 7] == kind
      && r[o + 8..o + 8 + |name|] == name && OnlyAt(blk, r, o, 8 + |name|)
  {
    hide Get16, Get32, Le16, Le32, PutRec;
    PutRecFields(blk, o, ino, len, name, kind);
    GetIs(PutRec(blk, o, ino, len, name, kind), o);
    GetIs(PutRec(blk, o, ino, len, name, kind), o + 4);
  }

  // ----- the block map -----

  /** The block that slot 12 points to, if it is there. */
  predicate Indirect(s: Fs, img: Image, d: Block) {
    Le32(img, 88) != 0 && Le32(img, 88) in s.data && s.data[Le32(img, 88)] == d && |d| == s.blockSize
  }

  /** Blocks 0 to 11 are named in the inode, the next ones in the indirect block; behind that there is none. */
  lemma BlockMapLayout(s: Fs, img: Image, k: nat)
    requires s.blockSize % 4 == 0
    ensures k < 12 ==> FileBlock(s, img, k) == Le32(img, 40 + 4 * k)
    ensures forall d | Indirect(s, img, d) && k < s.blockSize / 4 :: FileBlock(s, img, 12 + k) == Le32(d, 4 * k)
    ensures Le32(img, 88) == 0 || k >= s.blockSize / 4 ==> FileBlock(s, img, 12 + k) == 0
  {
    hide Get32, Le32;
    GetIs(img, 88);
    if k < 12 {
      GetIs(img, 40 + 4 * k);
    }
    forall d | Indirect(s, img, d) && k < s.blockSize / 4 ensures FileBlock(s, img, 12 + k) == Le32(d, 4 * k) {
      GetIs(d, 4 * k);
    }
  }

  /** The block numbers of a file, decoded from the bytes of its inode and of its indirect block. */
  function Pointers(s: Fs, img: Image): (p: seq<nat>)
    ensures |p| == 12 + s.blockSize / 4
  {
    var d := if Le32(img, 88) != 0 && Le32(img, 88) in s.data && |s.data[Le32(img, 88)]| >= s.blockSize then s.data[Le32(img, 88)] else Blank(s.blockSize);
    seq<nat>(12 + s.blockSize / 4, k requires 0 <= k < 12 + s.blockSize / 4 => if k < 12 then Le32(img, 40 + 4 * k) else Le32(d, 4 * (k - 12)))
  }

  /** A block's bytes; a hole, or a number that is no data block, is zeros. */
  function BytesOfBlock(s: Fs, b: nat): (d: Block)
    ensures |d| == s.blockSize
  {
    if b != 0 && b in s.data && |s.data[b]| == s.blockSize then s.data[b] else Blank(s.blockSize)
  }

  /** Blocks laid end to end. */
  function Laid(s: Fs, p: seq<nat>): (r: seq<Byte>)
    ensures |r| == |p| * s.blockSize
  {
    if p == [] then []
    else
      LaidLen(|p| - 1, s.blockSize);
      Laid(s, p[..|p| - 1]) + BytesOfBlock(s, p[|p| - 1])
  }

  lemma LaidLen(n: nat, size: nat)
    ensures n * size + size == (n + 1) * size
  {
  }

  lemma {:induction false} LaidAt(s: Fs, p: seq<nat>, k: nat, o: nat)
    requires k < |p| && o < s.blockSize
    ensures k * s.blockSize + o < |Laid(s, p)| && Laid(s, p)[k * s.blockSize + o] == BytesOfBlock(s, p[k])[o]
  {
    hide BytesOfBlock;
    MulStep(k, |p|, s.blockSize);
    if k < |p| - 1 {
      LaidAt(s, p[..|p| - 1], k, o);
    }
  }

  /** Entry k of the pointer list is block k of the file. */
  lemma PointerIs(s: Fs, img: Image, k: nat)
    requires s.blockSize % 4 == 0 && k < 12 + s.blockSize / 4
    ensures Pointers(s, img)[k] == FileBlock(s, img, k)
  {
    hide Get32, Le32, Blank;
    GetIs(img, 88);
    if k < 12 {
      GetIs(img, 40 + 4 * k);
    } else if Le32(img, 88) != 0 && Le32(img, 88) in s.data && |s.data[Le32(img, 88)]| >= s.blockSize {
      GetIs(s.data[Le32(img, 88)], 4 * (k - 12));
    } else {
      BlankLe(s.blockSize, 4 * (k - 12));
    }
  }

  lemma BlankLe(n: nat, o: nat)
    requires o + 4 <= n
    ensures Le32(Blank(n), o) == 0
  {
  }

  /** A file's contents are its blocks laid end to end, cut at the file's size and zero behind the last pointer. */
  lemma ContentLaid(s: Fs, img: Image)
    requires s.blockSize > 0 && s.blockSize % 4 == 0
    ensures |Content(s, img)| == Le32(img, 4)
    ensures forall p: nat | p < Le32(img, 4) ::
      Content(s, img)[p] == if p < |Laid(s, Pointers(s, img))| then Laid(s, Pointers(s, img))[p] else 0
  {
    hide Laid, Pointers, FileByte, Le32, Get32;
    GetIs(img, 4);
    ContentIs(s, img);
    forall p: nat | p < Le32(img, 4)
      ensures Content(s, img)[p] == if p < |Laid(s, Pointers(s, img))| then Laid(s, Pointers(s, img))[p] else 0
    {
      ByteLaid(s, img, p);
    }
  }

  lemma ByteLaid(s: Fs, img: Image, p: nat)
    requires s.blockSize > 0 && s.blockSize % 4 == 0
    ensures FileByte(s, img, p) == if p < |Laid(s, Pointers(s, img))| then Laid(s, Pointers(s, img))[p] else 0
  {
    hide Laid, Pointers, FileBlock, Le32, Get32, Blank;
    var n, k, o := 12 + s.blockSize / 4, BlockNo(p, s.blockSize), BlockAt(p, s.blockSize);
    assert p == k * s.blockSize + o;
    if k < n {
      PointerIs(s, img, k);
      LaidAt(s, Pointers(s, img), k, o);
      BlankAt(s.blockSize, o);
    } else {
      MulMono(n, k, s.blockSize);
      BeyondMap(s, img, k);
    }
  }

  lemma BlankAt(n: nat, o: nat)
    requires o < n
    ensures Blank(n)[o] == 0
  {
  }

  lemma BeyondMap(s: Fs, img: Image, k: nat)
    requires k >= 12 + s.blockSize / 4
    ensures FileBlock(s, img, k) == 0
  {
  }
}
