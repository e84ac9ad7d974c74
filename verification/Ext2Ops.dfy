/** Creating and deleting files and directories, and runs of operations. */
module Ext2Ops {
  import opened Bytes
  import opened Ext2Dir
  import opened Ext2File
  import opened Ext2Fs
  import opened Ext2Inode
  import opened Ext2Records
  import opened Ext2Volume

  /** The inode image of ext2_create_file and ext2_create_dir before any block is attached. */
  function FreshInode(mode: nat, uid: nat, gid: nat, links: nat): Image
    requires mode < 0x1_0000 && uid < 0x1_0000 && gid < 0x1_0000 && links < 0x1_0000
  {
    Put16(Put16(Put16(Put16(Blank(128), 0, mode), 2, uid), 24, gid), 26, links)
  }

  lemma FreshFields(mode: nat, uid: nat, gid: nat, links: nat)
    requires mode < 0x1_0000 && uid < 0x1_0000 && gid < 0x1_0000 && links < 0x1_0000
    ensures var img := FreshInode(mode, uid, gid, links);
      && Mode(img) == mode && Links(img) == links && Size(img) == 0 && Sectors(img) == 0
      && forall k | 0 <= k < 15 :: Ptr(img, k) == 0
  {
    hide Get32, Get16, Put16, Blank;
    var a := Put16(Blank(128), 0, mode);
    var b := Put16(a, 2, uid);
    var c := Put16(b, 24, gid);
    Put16Frame(a, 2, uid, 0);
    Put16Frame(b, 24, gid, 0);
    Put16Frame(c, 26, links, 0);
    forall o: nat | o == 4 || 28 <= o <= 124 ensures Get32(FreshInode(mode, uid, gid, links), o) == 0 {
      BlankField(o);
      Put16Frame(Blank(128), 0, mode, o);
      Put16Frame(a, 2, uid, o);
      Put16Frame(b, 24, gid, o);
      Put16Frame(c, 26, links, o);
    }
  }

  lemma BlankField(o: nat)
    requires o + 4 <= 128
    ensures Get32(Blank(128), o) == 0
  {
    assert Blank(128)[o..o + 4] == [0, 0, 0, 0];
  }

  /** An empty file or directory. */
  ghost predicate Empty(img: Image) {
    Managed(img) && Size(img) == 0 && forall k | 0 <= k < 15 :: Ptr(img, k) == 0
  }

  lemma EmptyBlocks(s: Fs, img: Image, fb: nat)
    requires Empty(img)
    ensures FileBlock(s, img, fb) == 0
  {
    hide Managed;
  }

  lemma EmptyDir(s: Fs, img: Image)
    requires Empty(img) && s.blockSize > 0
    ensures DirOk(s, img) && Blocks(s, img) == 0 && Dir(s, img) == [] && TailZero(s, img)
  {
    hide FileBlock, Managed, Size, BlockNo, BlockAt;
    forall fb: nat ensures FileBlock(s, img, fb) == 0 {
      EmptyBlocks(s, img, fb);
    }
    BlocksOf(s, img, 0);
  }

  /** A new live inode without blocks disturbs nobody. */
  lemma AddEmptyInode(s: Fs, i: nat, img: Image)
    requires FullInv(s) && i in s.inodes && i !in s.live && Empty(img)
    ensures FullInv(s.TakeInode(i).PutInode(i, img))
    ensures forall j | j in s.live && j in s.inodes && Managed(s.inodes[j]) ::
              SameFile(s, s.TakeInode(i).PutInode(i, img), s.inodes[j])
  {
    hide FileBlock, Managed, DirOk, TailZero, Empty, IsDir;
    FullInvParts(s);
    var t := s.TakeInode(i).PutInode(i, img);
    AddEmptyOwns(s, i, img);
    forall j, gb: nat | j in s.live && j in s.inodes && Managed(s.inodes[j]) ensures SameBlockAt(s, t, s.inodes[j], gb) {
      TakenElsewhere(s, t, s.inodes[j], gb);
      FileBlockOwned(s, j, gb);
    }
    EmptyDir(t, img);
    FullInvFrame(s, t, i);
  }

  lemma AddEmptyOwns(s: Fs, i: nat, img: Image)
    requires Sound(s) && i in s.inodes && i !in s.live && Empty(img)
    ensures Sound(s.TakeInode(i).PutInode(i, img))
  {
    hide FileBlock, Managed, Ptr, Size;
    var t := s.TakeInode(i).PutInode(i, img);
    forall j, k: nat, b ensures Owns(t, j, k, b) == Owns(s, j, k, b) {
      if j == i {
        if k >= 15 {
          EmptyBlocks(t, img, 12 + (k - 15));
        }
      } else if k >= 15 && j in s.inodes {
        TakenElsewhere(s, t, s.inodes[j], 12 + (k - 15));
      }
    }
    assert t.Shape();
  }

  // ----- creating a file -----

  /** d is a live directory of a consistent volume. */
  ghost predicate Parent(s: Fs, d: nat) {
    FullInv(s) && d in s.live && d in s.inodes && IsDir(s.inodes[d])
  }

  lemma ParentOk(s: Fs, d: nat)
    requires Parent(s, d)
    ensures s.Shape() && s.blockSize > 0 && DirOk(s, s.inodes[d]) && d != 0
  {
    hide DirOk, IsDir, Inv;
    FullInvParts(s);
  }

  /** Taking the inode that the scan found and writing an empty image into it. */
  lemma TakeInodeKeeps(s: Fs, d: nat, img: Image)
    requires Parent(s, d) && Empty(img) && s.NewInode() != 0
    ensures var i := s.NewInode(); var t := s.TakeInode(i).PutInode(i, img);
      && i in s.inodes && i !in s.live && i < TWO32 && i != d && Parent(t, d) && t.inodes[d] == s.inodes[d]
      && OthersSame(s, t, i)
  {
    hide DirOk, Empty, Managed, IsDir, FullInv, SameFile;
    ParentOk(s, d);
    FirstFreeInodeIs(s, 1);
    AddEmptyInode(s, s.NewInode(), img);
  }

  /** ext2_create_file below a resolved parent directory d. */
  ghost function CreateFile(s: Fs, d: nat, name: seq<Byte>, img: Image): Added
    requires Parent(s, d) && Empty(img) && |name| < 256
  {
    ParentOk(s, d);
    var i := s.NewInode();
    if i == 0 then Added(s, false)
    else
      TakeInodeKeeps(s, d, img);
      var t := s.TakeInode(i).PutInode(i, img);
      ParentOk(t, d);
      var r := AddEntry(t, d, i, name, 1);
      if r.ok then r else Added(r.s.DropInode(i), false)
  }

  /** Every inode but the excepted ones, and the contents of those that are live, are as before. */
  ghost predicate OthersSame2(s: Fs, t: Fs, i: nat, d: nat) {
    && (forall j | j != i && j != d && j in s.inodes :: j in t.inodes && t.inodes[j] == s.inodes[j])
    && (forall j | j != i && j != d && j in s.live && j in s.inodes && Managed(s.inodes[j]) :: SameFile(s, t, s.inodes[j]))
  }

  lemma OthersSameChain(s: Fs, t: Fs, u: Fs, i: nat, d: nat)
    requires OthersSame(s, t, i) && OthersSame(t, u, d) && forall j | j in s.live :: j in t.live
    ensures OthersSame2(s, u, i, d)
  {
    hide Managed, SameFile;
    forall j | j != i && j != d && j in s.live && j in s.inodes && Managed(s.inodes[j]) ensures SameFile(s, u, s.inodes[j]) {
      SameFileTrans(s, t, u, s.inodes[j]);
    }
  }

  /** Giving up an inode that holds no block. */
  lemma DropInodeOwns(s: Fs, i: nat)
    requires Sound(s)
    ensures Sound(s.DropInode(i))
  {
    hide FileBlock, Managed, Ptr;
    var t := s.DropInode(i);
    forall j, k: nat, b ensures Owns(t, j, k, b) <==> j != i && Owns(s, j, k, b) {
      if k >= 15 && j in s.inodes {
        TakenElsewhere(s, t, s.inodes[j], 12 + (k - 15));
      }
    }
    assert t.Shape();
  }

  lemma DropInodeKeeps(s: Fs, i: nat)
    requires FullInv(s) && i in s.inodes
    ensures FullInv(s.DropInode(i))
  {
    hide FileBlock, Managed, DirOk, TailZero, IsDir, Sound;
    FullInvParts(s);
    var t := s.DropInode(i);
    DropInodeOwns(s, i);
    SoundOthers(s, t, i);
    FullInvFrame(s, t, i);
  }

  lemma SoundOthers(s: Fs, t: Fs, i: nat)
    requires Sound(s) && t.data == s.data && t.inodes == s.inodes && t.blockSize == s.blockSize
    ensures OthersSame(s, t, i) && AllSame(s, t)
  {
    hide FileBlock, Managed;
    forall j, gb: nat | j in s.live && j in s.inodes && Managed(s.inodes[j]) ensures SameBlockAt(s, t, s.inodes[j], gb) {
      TakenElsewhere(s, t, s.inodes[j], gb);
      FileBlockOwned(s, j, gb);
    }
  }

  /**
   Creating a file: on success the parent gains exactly the pair (name, new inode), the new inode is
   the given empty one, and everything else is as before; on failure both bitmaps are as they were.
   */
  lemma CreateFileKeeps(s: Fs, d: nat, name: seq<Byte>, img: Image)
    requires Parent(s, d) && Empty(img) && 0 < |name| < 256
    ensures s.blockSize > 0 && CreateFile(s, d, name, img).s.blockSize == s.blockSize
    ensures FullInv(CreateFile(s, d, name, img).s)
    ensures var i, t := s.NewInode(), CreateFile(s, d, name, img).s;
      d in t.inodes && OthersSame2(s, t, i, d)
      && if CreateFile(s, d, name, img).ok then
           && i != 0 && t.live == s.live + {i} && s.used <= t.used && i in t.inodes && t.inodes[i] == img && IsDir(t.inodes[d])
           && Inserted(Dir(s, s.inodes[d]), Dir(t, t.inodes[d]), Entry(name, i, 1))
         else
           t.live == s.live && t.used == s.used && t.inodes[d] == s.inodes[d]
           && Dir(t, t.inodes[d]) == Dir(s, s.inodes[d])
  {
    hide FullInv, Empty, DirOk, AddEntry, OthersSame, OthersSame2, AllSame, Fs.NewInode, Dir, Inserted, IsDir, Managed, SameFile;
    ParentOk(s, d);
    ParentParts(s, d);
    var i := s.NewInode();
    if i == 0 {
      NothingChanged(s);
      AllSame2(s, s, i, d);
    } else {
      TakeInodeKeeps(s, d, img);
      var t := s.TakeInode(i).PutInode(i, img);
      ParentOk(t, d);
      ParentParts(t, d);
      AddEntryKeeps(t, d, i, name, 1);
      var r := AddEntry(t, d, i, name, 1);
      OtherDirSame(s, t, i, d);
      if r.ok {
        OthersSameChain(s, t, r.s, i, d);
        OtherInode(t, r.s, d, i);
      } else {
        AllSameParts(t, r.s);
        DropInodeKeeps(r.s, i);
        ParentParts(r.s, d);
        SoundOthers(r.s, r.s.DropInode(i), i);
        AllOthers(t, r.s, i);
        OthersSameTrans2(s, t, r.s, r.s.DropInode(i), i, d);
        AllSameDir(t, r.s, d);
        AllSameDir(r.s, r.s.DropInode(i), d);
      }
    }
  }

  lemma ParentParts(s: Fs, d: nat)
    requires FullInv(s)
    ensures Sound(s) && s.blockSize > 0
  {
    hide DirOk, IsDir;
    FullInvParts(s);
  }

  lemma AllSameParts(s: Fs, t: Fs)
    requires AllSame(s, t)
    ensures t.inodes == s.inodes
  {
  }

  lemma AllSame2(s: Fs, t: Fs, i: nat, d: nat)
    requires AllSame(s, t)
    ensures OthersSame2(s, t, i, d)
  {
    hide Managed, SameFile;
  }

  lemma OtherInode(s: Fs, t: Fs, d: nat, i: nat)
    requires OthersSame(s, t, d) && i in s.inodes && i != d
    ensures i in t.inodes && t.inodes[i] == s.inodes[i]
  {
  }

  /** A directory other than the changed inode keeps its list. */
  lemma OtherDirSame(s: Fs, t: Fs, i: nat, d: nat)
    requires OthersSame(s, t, i) && d != i && d in s.live && d in s.inodes && IsDir(s.inodes[d])
    requires s.blockSize > 0 && t.blockSize == s.blockSize
    ensures d in t.inodes && t.inodes[d] == s.inodes[d] && Dir(t, t.inodes[d]) == Dir(s, s.inodes[d])
  {
    hide SameFile;
    DirManaged(s.inodes[d]);
    SameFileDir(s, t, s.inodes[d]);
  }

  lemma AllSameDir(s: Fs, t: Fs, d: nat)
    requires AllSame(s, t) && d in s.live && d in s.inodes && IsDir(s.inodes[d])
    requires s.blockSize > 0 && t.blockSize == s.blockSize
    ensures t.inodes[d] == s.inodes[d] && Dir(t, t.inodes[d]) == Dir(s, s.inodes[d])
  {
    hide SameFile;
    DirManaged(s.inodes[d]);
    SameFileDir(s, t, s.inodes[d]);
  }

  lemma OthersSameTrans2(s: Fs, t: Fs, u: Fs, v: Fs, i: nat, d: nat)
    requires OthersSame(s, t, i) && OthersSame(t, u, i) && OthersSame(u, v, i)
    requires (forall j | j in s.live :: j in t.live) && (forall j | j in t.live :: j in u.live)
    ensures OthersSame2(s, v, i, d)
  {
    hide Managed, SameFile;
    forall j | j != i && j != d && j in s.live && j in s.inodes && Managed(s.inodes[j]) ensures SameFile(s, v, s.inodes[j]) {
      SameFileTrans(s, t, u, s.inodes[j]);
      SameFileTrans(s, u, v, s.inodes[j]);
    }
  }

  // ----- creating a directory -----

  const DOT: Byte := 46

  /** The first block of a new directory: "." leads to itself and ".." to its parent. */
  function Dots(size: nat, i: nat, d: nat): (blk: Block)
    requires 1024 <= size <= 32768 && i < TWO32 && d < TWO32
    ensures |blk| == size
  {
    PutRec(PutRec(Blank(size), 0, i, 12, [DOT], 2), 12, d, size - 12, [DOT, DOT], 2)
  }

  lemma DotsEntries(size: nat, i: nat, d: nat)
    requires 1024 <= size <= 32768 && size % 4 == 0 && 0 < i < TWO32 && 0 < d < TWO32
    ensures Tiled(Dots(size, i, d), 0)
    ensures Entries(Dots(size, i, d), 0) == [Entry([DOT], i, 2), Entry([DOT, DOT], d, 2)]
  {
    hide PutRec, Get32, Get16, Record;
    var a := PutRec(Blank(size), 0, i, 12, [DOT], 2);
    var blk := Dots(size, i, d);
    PutRecFields(Blank(size), 0, i, 12, [DOT], 2);
    PutRecFields(a, 12, d, size - 12, [DOT, DOT], 2);
    FirstDot(a, size, i);
    SameRecord(a, blk, 0);
    SecondDot(blk, size, d);
    assert Tiled(blk, size) && Entries(blk, size) == [];
    TiledStep(blk, 12);
    TiledStep(blk, 0);
  }

  lemma FirstDot(a: Block, size: nat, i: nat)
    requires |a| == size >= 1024 && 0 < i && Ino(a, 0) == i && RecLen(a, 0) == 12 && NameLen(a, 0) == 1 && a[7] == 2 && a[8..9] == [DOT]
    ensures Record(a, 0) && Head(a, 0) == [Entry([DOT], i, 2)]
  {
    hide Get32, Get16;
  }

  lemma SecondDot(a: Block, size: nat, d: nat)
    requires |a| == size >= 1024 && size % 4 == 0 && 0 < d && Ino(a, 12) == d
    requires RecLen(a, 12) == size - 12 && NameLen(a, 12) == 2 && a[19] == 2 && a[20..22] == [DOT, DOT]
    ensures Record(a, 12) && Head(a, 12) == [Entry([DOT, DOT], d, 2)]
  {
    hide Get32, Get16;
  }

  /** The volume once the new directory i has its inode and its first block, before it has a name. */
  function NewDir(s: Fs, i: nat, b: nat, d: nat, img: Image): Fs
    requires 1024 <= s.blockSize <= 32768 && i < TWO32 && d < TWO32 && b < TWO32
  {
    s.TakeInode(i).TakeBlock(b).PutInode(i, Extended(s, img, 0, b)).PutData(b, Dots(s.blockSize, i, d))
  }

  lemma InodeNumber(s: Fs, i: nat)
    requires FullInv(s) && i in s.inodes
    ensures 0 < i < TWO32
  {
    hide DirOk, IsDir, TailsZero, OwnedOnce, OwnedUsed;
  }

  lemma NewBlockIs(s: Fs)
    requires FullInv(s) && s.NewBlock() != 0
    ensures s.NewBlock() in s.data && s.NewBlock() !in s.used && s.firstBlock <= s.NewBlock() < s.blocksCount < TWO32
  {
    hide DirOk, IsDir, TailsZero, OwnedOnce, OwnedUsed;
    FirstFreeBlockIs(s, s.firstBlock);
  }

  lemma {:induction false} SameNewBlock(s: Fs, t: Fs, b: nat)
    requires t.used == s.used && t.blocksCount == s.blocksCount
    ensures t.FirstFreeBlock(b) == s.FirstFreeBlock(b)
    decreases s.blocksCount - b
  {
    if b < s.blocksCount {
      SameNewBlock(s, t, b + 1);
    }
  }

  lemma NewDirKeeps(s: Fs, d: nat, img: Image)
    requires Parent(s, d) && Empty(img) && IsDir(img) && s.NewInode() != 0 && s.NewBlock() != 0
    ensures 1024 <= s.blockSize <= 32768 && s.NewInode() < TWO32 && d < TWO32 && s.NewBlock() < TWO32
    ensures var i := s.NewInode(); var t := NewDir(s, i, s.NewBlock(), d, img);
      && i != d && i !in s.live && i in s.inodes && Parent(t, d) && t.inodes[d] == s.inodes[d] && OthersSame(s, t, i)
      && IsDir(t.inodes[i]) && Dir(t, t.inodes[i]) == [Entry([DOT], i, 2), Entry([DOT, DOT], d, 2)]
  {
    hide FullInv, Empty, DirOk, OthersSame, IsDir, Extended, Dots, Dir, Fs.NewInode, Fs.NewBlock, Sound, Tiled, Entries, Blocks;
    var i, b := s.NewInode(), s.NewBlock();
    ParentOk(s, d);
    TakeInodeKeeps(s, d, img);
    InodeNumber(s, i);
    InodeNumber(s, d);
    NewBlockIs(s);
    FullInvParts(s);
    var t1 := s.TakeInode(i).PutInode(i, img);
    FullInvParts(t1);
    EmptyDir(t1, img);
    DotsEntries(s.blockSize, i, d);
    var blk := Dots(s.blockSize, i, d);
    AppendDirBlock(t1, i, b, blk);
    var t := NewDir(s, i, b, d, img);
    SameExtended(s, t1, img, b);
    assert t == t1.TakeBlock(b).PutInode(i, Extended(t1, img, 0, b)).PutData(b, blk);
    FullInvAfter(t1, t, i);
    OtherInode(t1, t, i, d);
    OthersSameSub(s, t1, t, i);
  }

  lemma SameExtended(s: Fs, t: Fs, img: Image, b: nat)
    requires s.blockSize == t.blockSize && b < TWO32
    ensures Extended(t, img, 0, b) == Extended(s, img, 0, b)
  {
    hide SetPtr, SetSize, SetSectors;
  }

  lemma OthersSameSub(s: Fs, t: Fs, u: Fs, i: nat)
    requires (forall j | j in s.live :: j in t.live) && OthersSame(s, t, i) && OthersSame(t, u, i)
    ensures OthersSame(s, u, i)
  {
    hide Managed, SameFile;
    forall j | j != i && j in s.live && j in s.inodes && Managed(s.inodes[j]) ensures SameFile(s, u, s.inodes[j]) {
      SameFileTrans(s, t, u, s.inodes[j]);
    }
  }

  /** parent_inode.i_links_count++ */
  function Linked(img: Image): Image {
    SetLinks(img, (Links(img) + 1) % 0x1_0000)
  }

  /** ext2_create_dir below a resolved parent directory d. */
  ghost function CreateDir(s: Fs, d: nat, name: seq<Byte>, img: Image): Added
    requires Parent(s, d) && Empty(img) && IsDir(img) && |name| < 256
  {
    if s.NewInode() == 0 || s.NewBlock() == 0 then Added(s, false)
    else
      NewDirKeeps(s, d, img);
      var t := NewDir(s, s.NewInode(), s.NewBlock(), d, img);
      ParentOk(t, d);
      var r := AddEntry(t, d, s.NewInode(), name, 2);
      if r.ok && d in r.s.inodes then r.(s := r.s.PutInode(d, Linked(r.s.inodes[d]))) else r.(ok := false)
  }

  lemma LinkedKeeps(s: Fs, d: nat)
    requires FullInv(s) && d in s.live && d in s.inodes && IsDir(s.inodes[d])
    ensures var t := s.PutInode(d, Linked(s.inodes[d]));
      && FullInv(t) && OthersSame(s, t, d) && IsDir(t.inodes[d]) && s.blockSize > 0
      && Dir(t, t.inodes[d]) == Dir(s, s.inodes[d])
  {
    hide DirOk, OthersSame, Managed, SameMap, Linked, SameFile, FileBlock, Sound, TailZero, Mode, Size;
    FullInvParts(s);
    var img := s.inodes[d];
    var t := s.PutInode(d, Linked(img));
    LinkedFields(img);
    SameModeManaged(img, Linked(img));
    ReplaceInode(s, d, Linked(img));
    NothingChanged(s);
    AllOthers(s, s, d);
    ReplaceInodeOthers(s, s, d, Linked(img));
    forall fb: nat ensures FileBlock(t, Linked(img), fb) == FileBlock(s, img, fb) {
      SameMapBlocks(s, t, img, Linked(img), fb);
    }
    SameDirMap(s, t, img, Linked(img));
    FullInvAfter(s, t, d);
  }

  lemma LinkedFields(img: Image)
    ensures SameMap(img, Linked(img)) && Size(Linked(img)) == Size(img) && Mode(Linked(img)) == Mode(img)
  {
    hide Get32, Get16, Put16;
    var n := (Links(img) + 1) % 0x1_0000;
    forall j: nat | j < 15 ensures Ptr(Linked(img), j) == Ptr(img, j) {
      FieldsApart(img, 0, n, j);
    }
    FieldsApart(img, 0, n, 0);
  }

  lemma SameDirMap(s: Fs, t: Fs, a: Image, b: Image)
    requires s.blockSize == t.blockSize > 0 && t.data == s.data && Size(a) == Size(b)
    requires forall fb: nat :: FileBlock(t, b, fb) == FileBlock(s, a, fb)
    ensures Dir(t, b) == Dir(s, a) && (DirOk(s, a) ==> DirOk(t, b))
  {
    hide FileBlock, Size, Tiled, Entries;
    forall fb: nat ensures Part(t, b, fb) == Part(s, a, fb) && (DirBlockOk(s, a, fb) ==> DirBlockOk(t, b, fb)) {
    }
    SameParts(s, t, a, b, 0, Blocks(s, a));
  }

  /**
   Creating a directory: on success the parent gains exactly the pair (name, new inode) and the new
   directory holds "." and ".."; when no inode or no block is free nothing changes at all; when only
   the parent is full, the new inode and block stay taken but no name leads to them.
   */
  lemma CreateDirKeeps(s: Fs, d: nat, name: seq<Byte>, img: Image)
    requires Parent(s, d) && Empty(img) && IsDir(img) && 0 < |name| < 256
    ensures s.blockSize > 0 && CreateDir(s, d, name, img).s.blockSize == s.blockSize
    ensures FullInv(CreateDir(s, d, name, img).s)
    ensures var i, t := s.NewInode(), CreateDir(s, d, name, img).s;
      d in t.inodes && OthersSame2(s, t, i, d)
      && if CreateDir(s, d, name, img).ok then
           && t.live == s.live + {i} && s.used + {s.NewBlock()} <= t.used && i in t.inodes && IsDir(t.inodes[i])
           && Dir(t, t.inodes[i]) == [Entry([DOT], i, 2), Entry([DOT, DOT], d, 2)]
           && IsDir(t.inodes[d]) && Inserted(Dir(s, s.inodes[d]), Dir(t, t.inodes[d]), Entry(name, i, 2))
         else
           && t.inodes[d] == s.inodes[d] && Dir(t, t.inodes[d]) == Dir(s, s.inodes[d])
           && (t == s || (t.live == s.live + {i} && t.used == s.used + {s.NewBlock()}))
  {
    hide FullInv, Empty, DirOk, AddEntry, OthersSame, OthersSame2, AllSame, Fs.NewInode, Fs.NewBlock, Dir, Inserted, IsDir,
      Managed, SameFile, NewDir, Linked;
    ParentOk(s, d);
    ParentParts(s, d);
    var i, b := s.NewInode(), s.NewBlock();
    if i == 0 || b == 0 {
      NothingChanged(s);
      AllSame2(s, s, i, d);
    } else {
      NewDirKeeps(s, d, img);
      var t := NewDir(s, i, b, d, img);
      NewDirSets(s, i, b, d, img);
      ParentOk(t, d);
      ParentParts(t, d);
      InodeNumber(t, i);
      AddEntryKeeps(t, d, i, name, 2);
      var r := AddEntry(t, d, i, name, 2);
      OtherDirSame(s, t, i, d);
      if r.ok {
        var u := r.s.PutInode(d, Linked(r.s.inodes[d]));
        LinkedKeeps(r.s, d);
        OthersSameTrans(t, r.s, u, d);
        OtherDirSame(t, u, d, i);
        OthersSameChain(s, t, u, i, d);
      } else {
        AllSameParts(t, r.s);
        AllSameDir(t, r.s, d);
        AllOthers(t, r.s, i);
        OthersSameSub(s, t, r.s, i);
        OthersWeaken(s, r.s, i, d);
      }
    }
  }

  lemma NewDirSets(s: Fs, i: nat, b: nat, d: nat, img: Image)
    requires 1024 <= s.blockSize <= 32768 && i < TWO32 && d < TWO32 && b < TWO32
    ensures var t := NewDir(s, i, b, d, img);
            t.live == s.live + {i} && t.used == s.used + {b} && t.blockSize == s.blockSize && i in t.inodes
  {
    hide Extended, Dots;
  }

  lemma OthersWeaken(s: Fs, t: Fs, i: nat, d: nat)
    requires OthersSame(s, t, i)
    ensures OthersSame2(s, t, i, d)
  {
    hide Managed, SameFile;
  }

  // ----- deleting a file -----

  /** One round of the loop of ext2_delete_file over the direct pointers. */
  function FreeSlot(s: Fs, i: nat, k: nat): Fs
    requires i in s.inodes && k < 12
  {
    var b := Ptr(s.inodes[i], k);
    if b == 0 then s else s.DropBlock(b).PutInode(i, SetPtr(s.inodes[i], k, 0))
  }

  /** Rounds k .. 11. */
  function FreeSlots(s: Fs, i: nat, k: nat): (t: Fs)
    requires i in s.inodes && k <= 12
    ensures i in t.inodes
    decreases 12 - k
  {
    if k == 12 then s else FreeSlots(FreeSlot(s, i, k), i, k + 1)
  }

  /** The fields written into the inode of a deleted file. */
  function Erased(img: Image): Image {
    Put32(SetLinks(SetSectors(SetSize(img, 0), 0), 0), 20, 1)
  }

  /** ext2_delete_file on the regular file i, named `name` in directory d. */
  function DropFile(s: Fs, i: nat): Fs
    requires i in s.inodes
  {
    var t := FreeSlots(s, i, 0);
    t.PutInode(i, Erased(t.inodes[i])).DropInode(i)
  }

  lemma PtrCleared(img: Image, k: nat)
    requires k < 12
    ensures forall j | 0 <= j < 15 :: Ptr(SetPtr(img, k, 0), j) == if j == k then 0 else Ptr(img, j)
    ensures Mode(SetPtr(img, k, 0)) == Mode(img)
  {
    hide Get32, Put32, Get16, Ptr, Mode, SetPtr;
    forall j: nat | j < 15 ensures Ptr(SetPtr(img, k, 0), j) == if j == k then 0 else Ptr(img, j) {
      FieldsApart(img, k, 0, j);
    }
    FieldsApart(img, k, 0, 0);
  }

  /** Taking a block out of its slot and freeing it: that one ownership ends, all others stay. */
  lemma DetachOwns(s: Fs, i: nat, k: nat, img: Image)
    requires Sound(s) && i in s.live && i in s.inodes && Managed(s.inodes[i]) && Managed(img) && k < 12
    requires Ptr(s.inodes[i], k) != 0 && forall j | 0 <= j < 15 :: Ptr(img, j) == if j == k then 0 else Ptr(s.inodes[i], j)
    ensures var t := s.DropBlock(Ptr(s.inodes[i], k)).PutInode(i, img); Sound(t) && OthersSame(s, t, i)
  {
    hide FileBlock, Managed, Ptr;
    var b := Ptr(s.inodes[i], k);
    var t := s.DropBlock(b).PutInode(i, img);
    assert Owns(s, i, k, b);
    forall j, l: nat, x ensures Owns(t, j, l, x) <==> Owns(s, j, l, x) && !(j == i && l == k) {
      if l >= 15 && j in s.inodes {
        IndirectSame(s, t, s.inodes[j], t.inodes[j], 12 + (l - 15));
      }
    }
    assert t.Shape();
    forall j, gb: nat | j != i && j in s.live && j in s.inodes && Managed(s.inodes[j]) ensures SameBlockAt(s, t, s.inodes[j], gb) {
      TakenElsewhere(s, t, s.inodes[j], gb);
      FileBlockOwned(s, j, gb);
    }
  }

  lemma IndirectSame(s: Fs, t: Fs, a: Image, b: Image, fb: nat)
    requires fb >= 12 && Ptr(a, 12) == Ptr(b, 12) && t.data == s.data && t.blockSize == s.blockSize
    ensures FileBlock(t, b, fb) == FileBlock(s, a, fb)
  {
    hide Ptr, Get32;
  }

  lemma FreeSlotOwns(s: Fs, i: nat, k: nat)
    requires Sound(s) && i in s.live && i in s.inodes && Managed(s.inodes[i]) && k < 12
    ensures var t := FreeSlot(s, i, k);
      && Sound(t) && OthersSame(s, t, i) && t.live == s.live && t.blockSize == s.blockSize && t.inodes.Keys == s.inodes.Keys
      && Managed(t.inodes[i]) && (forall j | 0 <= j < 15 :: Ptr(t.inodes[i], j) == if j == k then 0 else Ptr(s.inodes[i], j))
      && t.used == s.used - if Ptr(s.inodes[i], k) == 0 then {} else {Ptr(s.inodes[i], k)}
  {
    hide FileBlock, Managed, Ptr, SetPtr, SameFile, Mode, Sound, OthersSame;
    if Ptr(s.inodes[i], k) == 0 {
      NothingChanged(s);
      AllOthers(s, s, i);
    } else {
      var img' := SetPtr(s.inodes[i], k, 0);
      PtrCleared(s.inodes[i], k);
      SameModeManaged(s.inodes[i], img');
      DetachOwns(s, i, k, img');
    }
  }

  /** The blocks behind direct pointers k .. 11. */
  function Direct(img: Image, k: nat): set<nat>
    requires k <= 12
  {
    set j | k <= j < 12 && Ptr(img, j) != 0 :: Ptr(img, j)
  }

  lemma {:induction false} FreeSlotsOwns(s: Fs, i: nat, k: nat)
    requires Sound(s) && i in s.live && i in s.inodes && Managed(s.inodes[i]) && k <= 12
    ensures var t := FreeSlots(s, i, k);
      && Sound(t) && OthersSame(s, t, i) && t.live == s.live && t.blockSize == s.blockSize && t.inodes.Keys == s.inodes.Keys
      && Managed(t.inodes[i]) && (forall j | 0 <= j < 15 :: Ptr(t.inodes[i], j) == if k <= j < 12 then 0 else Ptr(s.inodes[i], j))
      && t.used == s.used - Direct(s.inodes[i], k)
    decreases 12 - k
  {
    hide Managed, Ptr, Sound, OthersSame, FreeSlot;
    if k == 12 {
      NothingChanged(s);
      AllOthers(s, s, i);
    } else {
      FreeSlotOwns(s, i, k);
      var u := FreeSlot(s, i, k);
      FreeSlotsOwns(u, i, k + 1);
      OthersSameTrans(s, u, FreeSlots(u, i, k + 1), i);
      var b := Ptr(s.inodes[i], k);
      assert Direct(s.inodes[i], k) == Direct(u.inodes[i], k + 1) + if b == 0 then {} else {b} by {
        DirectStep(s.inodes[i], u.inodes[i], k);
      }
    }
  }

  lemma DirectStep(a: Image, b: Image, k: nat)
    requires k < 12 && forall j | 0 <= j < 15 :: Ptr(b, j) == if j == k then 0 else Ptr(a, j)
    ensures Direct(a, k) == Direct(b, k + 1) + if Ptr(a, k) == 0 then {} else {Ptr(a, k)}
  {
    hide Ptr;
    forall x | x in Direct(a, k) ensures x in Direct(b, k + 1) + {Ptr(a, k)} {
      var j :| k <= j < 12 && Ptr(a, j) != 0 && x == Ptr(a, j);
      assert j == k || Ptr(b, j) == x;
    }
    forall x | x in Direct(b, k + 1) ensures x in Direct(a, k) {
      var j :| k + 1 <= j < 12 && Ptr(b, j) != 0 && x == Ptr(b, j);
      assert Ptr(a, j) == x;
    }
  }

  lemma ErasedFields(img: Image)
    ensures SameMap(img, Erased(img)) && Size(Erased(img)) == 0
  {
    hide Get32, Put32, Get16, Put16, Mode, Size, Ptr, SetSize, SetSectors, SetLinks;
    var a := SetSize(img, 0);
    var b := SetSectors(a, 0);
    var c := SetLinks(b, 0);
    DtimeFields(c);
    forall j: nat | j < 15 ensures Ptr(Erased(img), j) == Ptr(img, j) {
      FieldsApart(img, 0, 0, j);
      FieldsApart(a, 0, 0, j);
      FieldsApart(b, 0, 0, j);
    }
    FieldsApart(img, 0, 0, 0);
    FieldsApart(a, 0, 0, 0);
    FieldsApart(b, 0, 0, 0);
    SameModeManaged(img, Erased(img));
  }

  lemma DtimeFields(img: Image)
    ensures forall j | 0 <= j < 15 :: Ptr(Put32(img, 20, 1), j) == Ptr(img, j)
    ensures Mode(Put32(img, 20, 1)) == Mode(img) && Size(Put32(img, 20, 1)) == Size(img)
  {
    hide Get32, Put32, Get16;
    forall j: nat | j < 15 ensures Ptr(Put32(img, 20, 1), j) == Ptr(img, j) {
      Put32Frame(img, 20, 1, 40 + 4 * j);
    }
    Put32Frame(img, 20, 1, 0);
    Put32Frame(img, 20, 1, 4);
  }

  /** Deleting keeps everything and frees exactly the direct blocks. */
  lemma DropFileKeeps(s: Fs, i: nat)
    requires FullInv(s) && i in s.live && i in s.inodes && Managed(s.inodes[i])
    ensures var t := DropFile(s, i);
      && FullInv(t) && t.blockSize == s.blockSize && OthersSame(s, t, i) && t.live == s.live - {i}
      && t.inodes.Keys == s.inodes.Keys && t.used == s.used - Direct(s.inodes[i], 0)
  {
    hide FullInv, Managed, Sound, OthersSame, FreeSlots, Erased, Direct, SameMap, Inv, DirOk;
    FullInvParts(s);
    FreeSlotsOwns(s, i, 0);
    var t := FreeSlots(s, i, 0);
    ErasedFields(t.inodes[i]);
    ReplaceInode(t, i, Erased(t.inodes[i]));
    var u := t.PutInode(i, Erased(t.inodes[i]));
    ReplaceInodeOthers(s, t, i, Erased(t.inodes[i]));
    DropInodeOwns(u, i);
    DropInodeOthers(s, u, i);
    FullInvFrame(s, u.DropInode(i), i);
  }

  lemma DropInodeOthers(s: Fs, u: Fs, i: nat)
    requires OthersSame(s, u, i)
    ensures OthersSame(s, u.DropInode(i), i)
  {
    hide Managed, FileBlock;
    var t := u.DropInode(i);
    forall j, gb: nat | j != i && j in s.live && j in s.inodes && Managed(s.inodes[j]) ensures SameBlockAt(s, t, s.inodes[j], gb) {
      assert SameFile(s, u, s.inodes[j]);
      assert SameBlockAt(s, u, s.inodes[j], gb);
      TakenElsewhere(u, t, s.inodes[j], gb);
    }
  }

  /** Some slot of i holds b. */
  ghost predicate OwnedBy(s: Fs, i: nat, b: nat) {
    exists k :: Owns(s, i, k, b)
  }

  /**
   Deleting frees exactly the blocks the file owned if, and only if, the file has no indirect block:
   the loop frees direct blocks only.
   */
  lemma DeleteFreesAllIff(s: Fs, i: nat)
    requires FullInv(s) && i in s.live && i in s.inodes && Managed(s.inodes[i])
    ensures (forall b :: b in DropFile(s, i).used <==> b in s.used && !OwnedBy(s, i, b))
       <==> Ptr(s.inodes[i], 12) == 0 && Ptr(s.inodes[i], 13) == 0 && Ptr(s.inodes[i], 14) == 0
  {
    hide FullInv, Managed, Ptr, DropFile, FileBlock, Sound, DirOk, Inv, OthersSame, Direct, IsDir, IsReg;
    FullInvParts(s);
    DropFileKeeps(s, i);
    var img := s.inodes[i];
    if Ptr(img, 12) == 0 && Ptr(img, 13) == 0 && Ptr(img, 14) == 0 {
      forall b ensures OwnedBy(s, i, b) <==> b in Direct(img, 0) {
        DirectOwned(s, i, b);
      }
    } else {
      var k := if Ptr(img, 12) != 0 then 12 else if Ptr(img, 13) != 0 then 13 else 14;
      IndirectKept(s, i, k);
    }
  }

  lemma DirectOwned(s: Fs, i: nat, b: nat)
    requires i in s.live && i in s.inodes && Managed(s.inodes[i])
    requires Ptr(s.inodes[i], 12) == 0 && Ptr(s.inodes[i], 13) == 0 && Ptr(s.inodes[i], 14) == 0
    ensures OwnedBy(s, i, b) <==> b in Direct(s.inodes[i], 0)
  {
    hide Managed, Ptr;
    if b in Direct(s.inodes[i], 0) {
      var j :| 0 <= j < 12 && Ptr(s.inodes[i], j) != 0 && b == Ptr(s.inodes[i], j);
      assert Owns(s, i, j, b);
    }
  }

  lemma IndirectKept(s: Fs, i: nat, k: nat)
    requires Sound(s) && i in s.live && i in s.inodes && Managed(s.inodes[i]) && 12 <= k < 15 && Ptr(s.inodes[i], k) != 0
    ensures OwnedBy(s, i, Ptr(s.inodes[i], k)) && Ptr(s.inodes[i], k) in s.used
    ensures Ptr(s.inodes[i], k) !in Direct(s.inodes[i], 0)
  {
    hide Managed, Ptr, FileBlock;
    var b := Ptr(s.inodes[i], k);
    assert Owns(s, i, k, b);
    forall j: nat | j < 12 ensures Ptr(s.inodes[i], j) != b {
      assert Ptr(s.inodes[i], j) == 0 || Owns(s, i, j, Ptr(s.inodes[i], j));
    }
  }

  /** ext2_delete_file on regular file i, which directory d names `name`. */
  ghost function DeleteFile(s: Fs, d: nat, name: seq<Byte>, i: nat): Added
    requires Parent(s, d) && i != d && i in s.live && i in s.inodes && Managed(s.inodes[i])
  {
    DropFileKeeps(s, i);
    var t := DropFile(s, i);
    OtherParent(s, t, i, d);
    ParentOk(t, d);
    RemoveEntry(t, d, name)
  }

  lemma OtherParent(s: Fs, t: Fs, i: nat, d: nat)
    requires Parent(s, d) && FullInv(t) && t.blockSize == s.blockSize && OthersSame(s, t, i) && d != i && d in t.live
    ensures Parent(t, d) && s.blockSize > 0 && t.inodes[d] == s.inodes[d] && Dir(t, t.inodes[d]) == Dir(s, s.inodes[d])
  {
    hide Inv, DirOk, OthersSame, Dir;
    OtherDirSame(s, t, i, d);
  }

  /** The name goes, the inode is free, the direct blocks are free, and nobody else notices. */
  lemma DeleteFileKeeps(s: Fs, d: nat, name: seq<Byte>, i: nat)
    requires Parent(s, d) && i != d && i in s.live && i in s.inodes && Managed(s.inodes[i])
    requires s.blockSize > 0 ==> Lookup(Dir(s, s.inodes[d]), name) != 0
    ensures s.blockSize > 0
    ensures var r := DeleteFile(s, d, name, i);
      && r.ok && r.s.blockSize == s.blockSize && FullInv(r.s)
      && r.s.live == s.live - {i} && r.s.used == s.used - Direct(s.inodes[i], 0)
      && d in r.s.inodes && Dir(r.s, r.s.inodes[d]) == Without(Dir(s, s.inodes[d]), name)
      && OthersSame2(s, r.s, i, d)
  {
    hide FullInv, Managed, DropFile, RemoveEntry, OthersSame, OthersSame2, Dir, Without, Lookup, DirOk, Direct, IsDir;
    ParentParts(s, d);
    DropFileKeeps(s, i);
    var t := DropFile(s, i);
    OtherParent(s, t, i, d);
    ParentOk(t, d);
    RemoveEntryKeeps(t, d, name);
    var u := RemoveEntry(t, d, name).s;
    OthersSameDrop(s, t, u, i, d);
  }

  lemma OthersSameDrop(s: Fs, t: Fs, u: Fs, i: nat, d: nat)
    requires OthersSame(s, t, i) && OthersSame(t, u, d) && t.live == s.live - {i}
    ensures OthersSame2(s, u, i, d)
  {
    hide Managed, SameFile;
    forall j | j != i && j != d && j in s.live && j in s.inodes && Managed(s.inodes[j]) ensures SameFile(s, u, s.inodes[j]) {
      SameFileTrans(s, t, u, s.inodes[j]);
    }
  }

  // ----- runs -----

  /** The operations on resolved inode numbers. */
  datatype Op =
    | Create(d: nat, name: seq<Byte>, img: Image)
    | Mkdir(d: nat, name: seq<Byte>, img: Image)
    | Write(i: nat, data: seq<Byte>, off: nat)
    | Delete(d: nat, name: seq<Byte>, i: nat)

  /** What path resolution has established when the driver gets to work. */
  ghost predicate Enabled(s: Fs, op: Op) {
    match op
    case Create(d, name, img) => Parent(s, d) && Empty(img) && IsReg(img) && 0 < |name| < 256
    case Mkdir(d, name, img) => Parent(s, d) && Empty(img) && IsDir(img) && 0 < |name| < 256
    case Write(i, data, off) => i in s.live && i in s.inodes && IsReg(s.inodes[i]) && off + |data| < TWO32
    case Delete(d, name, i) =>
      Parent(s, d) && s.blockSize > 0 && i in s.live && i in s.inodes && IsReg(s.inodes[i])
      && Lookup(Dir(s, s.inodes[d]), name) == i
  }

  lemma RegNotDir(s: Fs, d: nat, i: nat)
    requires Parent(s, d) && i in s.inodes && IsReg(s.inodes[i])
    ensures i != d && Managed(s.inodes[i])
  {
    hide FullInv;
  }

  ghost function Apply(s: Fs, op: Op): Fs
    requires FullInv(s) && Enabled(s, op)
  {
    match op
    case Create(d, name, img) => CreateFile(s, d, name, img).s
    case Mkdir(d, name, img) => CreateDir(s, d, name, img).s
    case Write(i, data, off) => FullInvParts(s); WriteFile(s, i, data, off).s
    case Delete(d, name, i) => RegNotDir(s, d, i); DeleteFile(s, d, name, i).s
  }

  /** A run; an operation whose path does not resolve changes nothing. */
  ghost function Run(s: Fs, ops: seq<Op>): Fs
    requires FullInv(s)
    decreases |ops|
  {
    if ops == [] then s
    else if Enabled(s, ops[0]) then ApplyKeeps(s, ops[0]); Run(Apply(s, ops[0]), ops[1..])
    else Run(s, ops[1..])
  }

  lemma WriteKeeps(s: Fs, i: nat, data: seq<Byte>, off: nat)
    requires FullInv(s) && i in s.live && i in s.inodes && IsReg(s.inodes[i]) && off + |data| < TWO32
    ensures s.Shape() && FullInv(WriteFile(s, i, data, off).s)
  {
    hide Inv, DirOk, Managed, OthersSame, FileByte, Size, Mode, WriteFile, TailZero, Sound, FullInv;
    FullInvParts(s);
    RegManaged(s.inodes[i]);
    WriteFileRefines(s, i, data, off);
    var t := WriteFile(s, i, data, off).s;
    SameModeManaged(s.inodes[i], t.inodes[i]);
    InvTailZero(t, i);
    FullInvFrame(s, t, i);
  }

  lemma RegManaged(img: Image)
    requires IsReg(img)
    ensures Managed(img) && !IsDir(img)
  {
  }

  lemma InvTailZero(s: Fs, i: nat)
    requires Inv(s) && i in s.live && i in s.inodes && Managed(s.inodes[i])
    ensures s.blockSize > 0 && Sound(s) && TailZero(s, s.inodes[i])
  {
    hide Sound, TailZero;
    InvParts(s);
  }

  /** Each operation keeps the invariant ... */
  lemma ApplyKeeps(s: Fs, op: Op)
    requires FullInv(s) && Enabled(s, op)
    ensures FullInv(Apply(s, op))
  {
    hide FullInv, Parent, Empty, IsDir, IsReg, CreateFile, CreateDir, DeleteFile, WriteFile, Lookup, Dir, Managed;
    match op
    case Create(d, name, img) => CreateFileKeeps(s, d, name, img);
    case Mkdir(d, name, img) => CreateDirKeeps(s, d, name, img);
    case Write(i, data, off) => WriteKeeps(s, i, data, off);
    case Delete(d, name, i) =>
      RegNotDir(s, d, i);
      InodeNumber(s, i);
      DeleteFileKeeps(s, d, name, i);
  }

  /**
   ... so it holds after any run of create, mkdir, write and delete: every block of a live file or
   directory is marked in use, is no metadata block and sits in one slot of one inode; files end in
   zeros; and every directory block is tiled by records.
   */
  lemma {:induction false} RunKeeps(s: Fs, ops: seq<Op>)
    requires FullInv(s)
    ensures FullInv(Run(s, ops))
    decreases |ops|
  {
    hide FullInv, Enabled, Apply;
    if ops != [] {
      if Enabled(s, ops[0]) {
        ApplyKeeps(s, ops[0]);
        RunKeeps(Apply(s, ops[0]), ops[1..]);
      } else {
        RunKeeps(s, ops[1..]);
      }
    }
  }
}
