/** Directories: the records of all blocks of a directory inode, and adding and removing an entry. */
module Ext2Dir {
  import opened Arith
  import opened Bytes
  import opened Ext2File
  import opened Ext2Fs
  import opened Ext2Inode
  import opened Ext2Records
  import opened Ext2Volume

  /** The number of blocks a scan of the directory visits. */
  function Blocks(s: Fs, img: Image): nat
    requires s.blockSize > 0
  {
    Size(img) / s.blockSize + if Size(img) % s.blockSize != 0 then 1 else 0
  }

  /** The entries in block fb of a directory; a hole has none. */
  function Part(s: Fs, img: Image, fb: nat): seq<Entry> {
    var b := FileBlock(s, img, fb);
    if b == 0 || b !in s.data || !Tiled(s.data[b], 0) then [] else Entries(s.data[b], 0)
  }

  /** The entries of blocks fb .. n - 1, in scan order. */
  function EntriesFrom(s: Fs, img: Image, fb: nat, n: nat): seq<Entry>
    decreases n - fb
  {
    if fb >= n then [] else Part(s, img, fb) + EntriesFrom(s, img, fb + 1, n)
  }

  /** The directory as a list of (name, inode) pairs. */
  function Dir(s: Fs, img: Image): seq<Entry>
    requires s.blockSize > 0
  {
    EntriesFrom(s, img, 0, Blocks(s, img))
  }

  /** Every block of the directory is exactly tiled by records, and there are no blocks behind its size. */
  ghost predicate DirOk(s: Fs, img: Image)
    requires s.blockSize > 0
  {
    && Size(img) == Blocks(s, img) * s.blockSize
    && forall fb: nat :: DirBlockOk(s, img, fb)
  }

  predicate DirBlockOk(s: Fs, img: Image, fb: nat)
    requires s.blockSize > 0
  {
    var b := FileBlock(s, img, fb);
    b == 0 || (fb < Blocks(s, img) && b in s.data && |s.data[b]| == s.blockSize && Tiled(s.data[b], 0))
  }

  /** What every operation keeps: files as before, and well-formed directories. */
  ghost predicate FullInv(s: Fs) {
    && Inv(s) && s.blockSize > 0
    && forall d | d in s.live && d in s.inodes && IsDir(s.inodes[d]) :: DirOk(s, s.inodes[d])
  }

  // ----- lists of entries -----

  lemma {:induction false} LookupConcat(a: seq<Entry>, b: seq<Entry>, name: seq<Byte>)
    requires forall e | e in a :: e.ino != 0
    ensures Lookup(a + b, name) == if Lookup(a, name) != 0 then Lookup(a, name) else Lookup(b, name)
  {
    if a == [] {
      assert a + b == b;
    } else {
      assert a[0] in a;
      LookupConcat(a[1..], b, name);
      assert (a + b)[1..] == a[1..] + b;
    }
  }

  lemma {:induction false} WithoutConcat(a: seq<Entry>, b: seq<Entry>, name: seq<Byte>)
    requires forall e | e in a :: e.ino != 0
    ensures Without(a + b, name) == if Lookup(a, name) != 0 then Without(a, name) + b else a + Without(b, name)
  {
    if a == [] {
      assert a + b == b && a + Without(b, name) == Without(b, name);
    } else {
      assert a[0] in a && (a + b)[1..] == a[1..] + b;
      if a[0].name != name {
        WithoutConcat(a[1..], b, name);
        AssocHead(a[0], a[1..], Without(b, name));
        AssocHead(a[0], Without(a[1..], name), b);
        assert [a[0]] + a[1..] == a;
      }
    }
  }

  lemma AssocHead(e: Entry, x: seq<Entry>, y: seq<Entry>)
    ensures [e] + (x + y) == [e] + x + y
  {
  }

  lemma {:induction false} LiveInos(blk: Block, o: nat)
    requires Tiled(blk, o)
    ensures forall e | e in Entries(blk, o) :: e.ino != 0
    decreases |blk| - o
  {
    hide Record, RecLen, Ino, NameLen;
    if o < |blk| {
      RecordInside(blk, o);
      LiveInos(blk, o + RecLen(blk, o));
    }
  }

  lemma PartInos(s: Fs, img: Image, fb: nat)
    ensures forall e | e in Part(s, img, fb) :: e.ino != 0
  {
    hide FileBlock, Entries, Tiled;
    var b := FileBlock(s, img, fb);
    if !(b == 0 || b !in s.data || !Tiled(s.data[b], 0)) {
      LiveInos(s.data[b], 0);
    }
  }

  lemma {:induction false} FromInos(s: Fs, img: Image, fb: nat, n: nat)
    ensures forall e | e in EntriesFrom(s, img, fb, n) :: e.ino != 0
    decreases n - fb
  {
    hide Part;
    if fb < n {
      PartInos(s, img, fb);
      FromInos(s, img, fb + 1, n);
    }
  }

  // ----- searching -----

  /** The scan of ext2_find_in_dir: the inode number it returns, or 0. */
  function Find(s: Fs, img: Image, name: seq<Byte>, fb: nat, n: nat): nat
    requires s.blockSize > 0 && DirOk(s, img)
    decreases n - fb
  {
    if fb >= n then 0
    else
      assert DirBlockOk(s, img, fb);
      var b := FileBlock(s, img, fb);
      if b == 0 then Find(s, img, name, fb + 1, n)
      else
        match FindRec(s.data[b], 0, name)
        case Some(o) => Ino(s.data[b], o)
        case None => Find(s, img, name, fb + 1, n)
  }

  /** The scan agrees with the abstract directory for every name. */
  lemma {:induction false} FindIs(s: Fs, img: Image, name: seq<Byte>, fb: nat, n: nat)
    requires s.blockSize > 0 && DirOk(s, img)
    ensures Find(s, img, name, fb, n) == Lookup(EntriesFrom(s, img, fb, n), name)
    decreases n - fb
  {
    hide FileBlock, Entries, Tiled, FindRec, Ino, Blocks, Lookup, Without;
    if fb >= n {
      LookupNil(name);
    } else {
      assert DirBlockOk(s, img, fb);
      var b := FileBlock(s, img, fb);
      PartInos(s, img, fb);
      FindIs(s, img, name, fb + 1, n);
      LookupConcat(Part(s, img, fb), EntriesFrom(s, img, fb + 1, n), name);
      LookupNil(name);
      if b != 0 {
        FindRecIs(s.data[b], 0, name);
      }
    }
  }

  lemma LookupNil(name: seq<Byte>)
    ensures Lookup([], name) == 0
  {
  }

  // ----- adding -----

  /** First block of the directory, from fb on, with a record that has `need` bytes to spare. */
  function FitBlock(s: Fs, img: Image, need: nat, fb: nat, n: nat): (r: Option<nat>)
    requires s.blockSize > 0 && DirOk(s, img)
    ensures r.Some? ==> fb <= r.value < n && DirBlockOk(s, img, r.value) && FileBlock(s, img, r.value) != 0
                        && FitRec(s.data[FileBlock(s, img, r.value)], 0, need).Some?
    decreases n - fb
  {
    if fb >= n then None
    else
      assert DirBlockOk(s, img, fb);
      var b := FileBlock(s, img, fb);
      if b != 0 && FitRec(s.data[b], 0, need).Some? then Some(fb) else FitBlock(s, img, need, fb + 1, n)
  }

  datatype Added = Added(s: Fs, ok: bool)

  /** The inode after ext2_append_block: one more pointer, one block longer. */
  function Extended(s: Fs, img: Image, k: nat, b: nat): Image
    requires k < 12 && b < TWO32
  {
    var a := SetSize(SetPtr(img, k, b), (Size(img) + s.blockSize) % TWO32);
    SetSectors(a, (Sectors(a) + s.blockSize / 512) % TWO32)
  }

  /** ext2_add_dir_entry. */
  function AddEntry(s: Fs, d: nat, ino: nat, name: seq<Byte>, kind: Byte): Added
    requires s.Shape() && d in s.inodes && DirOk(s, s.inodes[d])
    requires ino < TWO32 && |name| < 256
  {
    var img := s.inodes[d];
    match FitBlock(s, img, Rounded(|name|), 0, Blocks(s, img))
    case Some(fb) =>
      var b := FileBlock(s, img, fb);
      var o := FitRec(s.data[b], 0, Rounded(|name|)).value;
      Added(s.PutData(b, InsertAt(s.data[b], o, ino, name, kind)), true)
    case None =>
      FirstFreeBlockIs(s, s.firstBlock);
      var nb, k := s.NewBlock(), Size(img) / s.blockSize;
      if nb == 0 then Added(s, false)
      else if k >= 12 then Added(s.PutData(nb, Blank(s.blockSize)), false)
      else Added(s.TakeBlock(nb).PutInode(d, Extended(s, img, k, nb))
                  .PutData(nb, PutRec(Blank(s.blockSize), 0, ino, s.blockSize, name, kind)), true)
  }

  /** e is inserted somewhere into the list a; everything else keeps its order. */
  ghost predicate Inserted(a: seq<Entry>, b: seq<Entry>, e: Entry) {
    exists k :: 0 <= k <= |a| && b == a[..k] + [e] + a[k..]
  }

  lemma InsertedConcat(pre: seq<Entry>, a: seq<Entry>, b: seq<Entry>, post: seq<Entry>, e: Entry)
    requires Inserted(a, b, e)
    ensures Inserted(pre + (a + post), pre + (b + post), e)
  {
    var k :| 0 <= k <= |a| && b == a[..k] + [e] + a[k..];
    var w := pre + (a + post);
    assert w[..|pre| + k] == pre + a[..k] && w[|pre| + k..] == a[k..] + post;
  }

  /** One block of a directory changes: the list changes in that part only. */
  lemma {:induction false} OnePart(s: Fs, t: Fs, img: Image, img': Image, fb: nat, at: nat, n: nat, e: Entry)
    requires fb <= at < n
    requires forall gb: nat | gb != at :: Part(t, img', gb) == Part(s, img, gb)
    requires Inserted(Part(s, img, at), Part(t, img', at), e)
    ensures Inserted(EntriesFrom(s, img, fb, n), EntriesFrom(t, img', fb, n), e)
    decreases n - fb
  {
    hide Part, Inserted;
    if fb == at {
      SameParts(s, t, img, img', fb + 1, n);
      InsertedConcat([], Part(s, img, fb), Part(t, img', fb), EntriesFrom(s, img, fb + 1, n), e);
      assert [] + EntriesFrom(s, img, fb, n) == EntriesFrom(s, img, fb, n);
      assert [] + EntriesFrom(t, img', fb, n) == EntriesFrom(t, img', fb, n);
    } else {
      OnePart(s, t, img, img', fb + 1, at, n, e);
      var a, b := EntriesFrom(s, img, fb + 1, n), EntriesFrom(t, img', fb + 1, n);
      InsertedConcat(Part(s, img, fb), a, b, [], e);
      assert a + [] == a && b + [] == b;
    }
  }

  lemma {:induction false} SameParts(s: Fs, t: Fs, img: Image, img': Image, fb: nat, n: nat)
    requires forall gb: nat | gb >= fb :: Part(t, img', gb) == Part(s, img, gb)
    ensures EntriesFrom(t, img', fb, n) == EntriesFrom(s, img, fb, n)
    decreases n - fb
  {
    hide Part;
    if fb < n {
      SameParts(s, t, img, img', fb + 1, n);
    }
  }

  // ----- what other directories see -----

  /** A directory all of whose blocks are the same has the same entries and is as well formed as before. */
  lemma SameFileDir(s: Fs, t: Fs, img: Image)
    requires s.blockSize > 0 && t.blockSize == s.blockSize && SameFile(s, t, img)
    ensures Dir(t, img) == Dir(s, img)
    ensures DirOk(s, img) ==> DirOk(t, img)
  {
    hide FileBlock, Entries, Tiled, Size;
    forall fb: nat ensures Part(t, img, fb) == Part(s, img, fb) && (DirBlockOk(s, img, fb) ==> DirBlockOk(t, img, fb)) {
      assert SameBlockAt(s, t, img, fb);
    }
    SameParts(s, t, img, img, 0, Blocks(s, img));
  }

  /** Behind its last block a directory reads as zeros. */
  lemma DirTail(s: Fs, img: Image)
    requires s.blockSize > 0 && DirOk(s, img)
    ensures TailZero(s, img)
  {
    hide FileBlock, Tiled, Size, Blocks, BlockAt;
    forall p: nat | p >= Size(img) ensures FileByte(s, img, p) == 0 {
      BehindBlocks(p, Blocks(s, img), s.blockSize);
      assert DirBlockOk(s, img, BlockNo(p, s.blockSize));
    }
  }

  lemma BehindBlocks(p: nat, n: nat, size: nat)
    requires size > 0 && p >= n * size
    ensures BlockNo(p, size) >= n
  {
    if p / size < n {
      MulStep(p / size, n, size);
    }
  }

  /** A change confined to inode d, which is well formed afterwards or no longer live, keeps everything. */
  lemma FullInvFrame(s: Fs, t: Fs, d: nat)
    requires FullInv(s) && Sound(t) && t.blockSize == s.blockSize > 0 && t.inodes.Keys == s.inodes.Keys
    requires OthersSame(s, t, d) && d in t.inodes && forall j | j in t.live && j != d :: j in s.live
    requires d in t.live && Managed(t.inodes[d]) ==> TailZero(t, t.inodes[d])
    requires d in t.live && IsDir(t.inodes[d]) ==> DirOk(t, t.inodes[d])
    ensures FullInv(t)
  {
    hide DirOk, Sound, Managed, TailZero, SameFile, IsDir;
    forall j | j in t.live && j in t.inodes && Managed(t.inodes[j]) ensures TailZero(t, t.inodes[j]) {
      if j != d {
        assert SameFile(s, t, s.inodes[j]);
        assert TailZero(s, s.inodes[j]);
        SameTailZero(s, t, s.inodes[j]);
      }
    }
    forall j | j in t.live && j in t.inodes && IsDir(t.inodes[j]) ensures DirOk(t, t.inodes[j]) {
      if j != d {
        DirManaged(s.inodes[j]);
        SameFileDir(s, t, s.inodes[j]);
      }
    }
    InvFrom(t);
  }

  /** The case of one directory that stays. */
  lemma FullInvAfter(s: Fs, t: Fs, d: nat)
    requires FullInv(s) && Sound(t) && t.blockSize == s.blockSize > 0 && t.live == s.live && t.inodes.Keys == s.inodes.Keys
    requires OthersSame(s, t, d) && d in t.inodes && DirOk(t, t.inodes[d])
    ensures FullInv(t)
  {
    hide DirOk, Sound, OthersSame, TailZero, FullInv;
    DirTail(t, t.inodes[d]);
    FullInvFrame(s, t, d);
  }

  lemma DirManaged(img: Image)
    requires IsDir(img)
    ensures Managed(img)
  {
  }

  lemma SameTailZero(s: Fs, t: Fs, img: Image)
    requires s.blockSize > 0 && t.blockSize == s.blockSize && SameFile(s, t, img) && TailZero(s, img)
    ensures TailZero(t, img)
  {
    hide SameFile, FileByte, Size;
    SameFileBytes(s, t, img);
  }

  // ----- the two ways an entry is added -----

  /** Rewriting one block of a directory by another tiled block. */
  lemma PutDirBlock(s: Fs, d: nat, fb: nat, blk: Block)
    requires Sound(s) && s.blockSize > 0 && d in s.live && d in s.inodes && IsDir(s.inodes[d]) && DirOk(s, s.inodes[d])
    requires FileBlock(s, s.inodes[d], fb) != 0 && |blk| == s.blockSize && Tiled(blk, 0)
    ensures var img := s.inodes[d]; var t := s.PutData(FileBlock(s, img, fb), blk);
      && Sound(t) && OthersSame(s, t, d) && DirOk(t, img) && Part(t, img, fb) == Entries(blk, 0)
      && forall gb: nat | gb != fb :: Part(t, img, gb) == Part(s, img, gb)
  {
    hide FileBlock, Sound, Managed, OthersSame, Tiled, Entries, IsDir, Size;
    var img := s.inodes[d];
    var b := FileBlock(s, img, fb);
    var t := s.PutData(b, blk);
    DirManaged(img);
    PutFileBlock(s, d, fb, blk);
    PutFileBlockOthers(s, d, fb, blk);
    assert DirBlockOk(s, img, fb);
    forall gb: nat ensures DirBlockOk(t, img, gb) && Part(t, img, gb) == if gb == fb then Entries(blk, 0) else Part(s, img, gb) {
      assert DirBlockOk(s, img, gb);
    }
  }

  lemma {:induction false} FromLast(s: Fs, img: Image, fb: nat, n: nat)
    requires fb <= n
    ensures EntriesFrom(s, img, fb, n + 1) == EntriesFrom(s, img, fb, n) + Part(s, img, n)
    decreases n - fb
  {
    hide Part;
    if fb < n {
      FromLast(s, img, fb + 1, n);
    } else {
      assert EntriesFrom(s, img, n + 1, n + 1) == [];
    }
  }

  /** A fresh block that holds one record over its whole length. */
  lemma WholeRecord(size: nat, ino: nat, name: seq<Byte>, kind: Byte)
    requires 1024 <= size <= 32768 && size % 4 == 0 && 0 < ino < TWO32 && 0 < |name| < 256
    ensures var blk := PutRec(Blank(size), 0, ino, size, name, kind);
      |blk| == size && Tiled(blk, 0) && Entries(blk, 0) == [Entry(name, ino, kind)]
  {
    hide PutRec, Get32, Get16;
    var blk := PutRec(Blank(size), 0, ino, size, name, kind);
    PutRecFields(Blank(size), 0, ino, size, name, kind);
    assert Head(blk, 0) == [Entry(name, ino, kind)];
    assert Tiled(blk, size);
  }

  lemma ExtendedFields(s: Fs, img: Image, k: nat, b: nat)
    requires k < 12 && b < TWO32
    ensures forall j | 0 <= j < 15 :: Ptr(Extended(s, img, k, b), j) == if j == k then b else Ptr(img, j)
    ensures Size(Extended(s, img, k, b)) == (Size(img) + s.blockSize) % TWO32 && Mode(Extended(s, img, k, b)) == Mode(img)
  {
    hide Get32, Put32, Get16, Ptr, Size, Mode, SetPtr, SetSectors, SetSize;
    var p := SetPtr(img, k, b);
    var a := SetSize(p, (Size(img) + s.blockSize) % TWO32);
    var n := (Sectors(a) + s.blockSize / 512) % TWO32;
    forall j: nat | j < 15 ensures Ptr(Extended(s, img, k, b), j) == if j == k then b else Ptr(img, j) {
      FieldsApart(img, k, b, j);
      FieldsApart(p, k, (Size(img) + s.blockSize) % TWO32, j);
      FieldsApart(a, k, n, j);
    }
    FieldsApart(img, k, b, 0);
    FieldsApart(p, k, (Size(img) + s.blockSize) % TWO32, 0);
    FieldsApart(a, k, n, 0);
  }

  lemma WholeBlocks(s: Fs, img: Image)
    requires s.blockSize > 0 && Size(img) == Blocks(s, img) * s.blockSize
    ensures Size(img) / s.blockSize == Blocks(s, img) && Size(img) % s.blockSize == 0
  {
    DivMod(Blocks(s, img), 0, s.blockSize);
  }

  lemma BlocksOf(s: Fs, img: Image, n: nat)
    requires s.blockSize > 0 && Size(img) == n * s.blockSize
    ensures Blocks(s, img) == n
  {
    DivMod(n, 0, s.blockSize);
  }

  /** Appending a block to a directory. */
  lemma AppendDirBlock(s: Fs, d: nat, b: nat, blk: Block)
    requires Sound(s) && 0 < s.blockSize <= 32768 && d in s.live && d in s.inodes && IsDir(s.inodes[d]) && DirOk(s, s.inodes[d])
    requires b in s.data && b !in s.used && s.firstBlock <= b < s.blocksCount < TWO32
    requires Blocks(s, s.inodes[d]) < 12 && |blk| == s.blockSize && Tiled(blk, 0)
    ensures var img := s.inodes[d]; var k := Blocks(s, img); var img' := Extended(s, img, k, b);
      var t := s.TakeBlock(b).PutInode(d, img').PutData(b, blk);
      && Sound(t) && OthersSame(s, t, d) && IsDir(img') && DirOk(t, img')
      && Dir(t, img') == Dir(s, img) + Entries(blk, 0)
  {
    hide FileBlock, Sound, Managed, OthersSame, Tiled, Entries, Extended, Ptr, Size, Mode, Blocks;
    var img := s.inodes[d];
    var k := Blocks(s, img);
    var img' := Extended(s, img, k, b);
    var t := s.TakeBlock(b).PutInode(d, img').PutData(b, blk);
    ExtendedFields(s, img, k, b);
    SameModeManaged(img, img');
    DirManaged(img);
    AttachAndFill(s, d, k, b, img', blk);
    assert k * s.blockSize + s.blockSize == (k + 1) * s.blockSize <= 12 * 32768;
    BlocksOf(t, img', k + 1);
    forall gb: nat ensures DirBlockOk(t, img', gb) && Part(t, img', gb) == if gb == k then Entries(blk, 0) else Part(s, img, gb) {
      assert DirBlockOk(s, img, gb);
    }
    FromLast(t, img', 0, k);
    ShorterParts(s, t, img, img', 0, k);
  }

  lemma {:induction false} ShorterParts(s: Fs, t: Fs, img: Image, img': Image, fb: nat, n: nat)
    requires forall gb: nat | gb < n :: Part(t, img', gb) == Part(s, img, gb)
    ensures EntriesFrom(t, img', fb, n) == EntriesFrom(s, img, fb, n)
    decreases n - fb
  {
    hide Part;
    if fb < n {
      ShorterParts(s, t, img, img', fb + 1, n);
    }
  }

  // ----- the operations -----

  lemma FullInvParts(s: Fs)
    requires FullInv(s)
    ensures Inv(s) && Sound(s) && s.Shape() && 1024 <= s.blockSize <= 32768 && s.blockSize % 4 == 0
    ensures s.firstBlock < s.blocksCount < TWO32
    ensures forall d | d in s.live && d in s.inodes && IsDir(s.inodes[d]) :: DirOk(s, s.inodes[d])
  {
    hide DirOk, TailsZero, OwnedUsed, OwnedOnce;
  }

  /** All files and directories of s have the same contents in t. */
  ghost predicate AllSame(s: Fs, t: Fs) {
    && t.inodes == s.inodes
    && forall j | j in s.live && j in s.inodes && Managed(s.inodes[j]) :: SameFile(s, t, s.inodes[j])
  }

  lemma AllSameKeeps(s: Fs, t: Fs)
    requires FullInv(s) && Sound(t) && t.blockSize == s.blockSize && t.live == s.live && AllSame(s, t)
    ensures FullInv(t)
  {
    hide DirOk, Sound, Managed, TailZero, SameFile;
    forall j | j in t.live && j in t.inodes && Managed(t.inodes[j]) ensures TailZero(t, t.inodes[j]) {
      assert TailZero(s, s.inodes[j]);
      SameTailZero(s, t, s.inodes[j]);
    }
    forall j | j in t.live && j in t.inodes && IsDir(t.inodes[j]) ensures DirOk(t, t.inodes[j]) {
      DirManaged(s.inodes[j]);
      SameFileDir(s, t, s.inodes[j]);
    }
    InvFrom(t);
  }

  /** Writing a block that is free is seen by nobody. */
  lemma PutFreeBlock(s: Fs, b: nat, blk: Block)
    requires Sound(s) && b in s.data && b !in s.used && |blk| == s.blockSize
    ensures Sound(s.PutData(b, blk)) && AllSame(s, s.PutData(b, blk))
  {
    hide FileBlock, Managed;
    var t := s.PutData(b, blk);
    PutDataOwns(s, b, blk);
    forall j, gb: nat | j in s.live && j in s.inodes && Managed(s.inodes[j]) ensures SameBlockAt(s, t, s.inodes[j], gb) {
      PutDataBlocks(s, b, blk, j, gb);
      FileBlockOwned(s, j, gb);
    }
  }

  /** What a successful addition leaves: one entry more in d, and every other file and directory as before. */
  ghost predicate EntryAdded(s: Fs, t: Fs, d: nat, e: Entry)
    requires s.blockSize > 0 && t.blockSize == s.blockSize && d in s.inodes
  {
    && FullInv(t) && t.live == s.live && t.inodes.Keys == s.inodes.Keys && OthersSame(s, t, d) && s.used <= t.used
    && IsDir(t.inodes[d]) && Inserted(Dir(s, s.inodes[d]), Dir(t, t.inodes[d]), e)
  }

  lemma InsertKeeps(s: Fs, d: nat, fb: nat, o: nat, ino: nat, name: seq<Byte>, kind: Byte)
    requires FullInv(s) && d in s.live && d in s.inodes && IsDir(s.inodes[d])
    requires 0 < ino < TWO32 && 0 < |name| < 256
    requires fb < Blocks(s, s.inodes[d]) && FileBlock(s, s.inodes[d], fb) != 0
    requires DirBlockOk(s, s.inodes[d], fb)
    requires FitRec(s.data[FileBlock(s, s.inodes[d], fb)], 0, Rounded(|name|)) == Some(o)
    ensures var b := FileBlock(s, s.inodes[d], fb);
            EntryAdded(s, s.PutData(b, InsertAt(s.data[b], o, ino, name, kind)), d, Entry(name, ino, kind))
  {
    hide FileBlock, Sound, OthersSame, Tiled, Entries, FitRec, InsertAt, DirOk, IsDir, Blocks, Part, Record, RecLen,
      RealLen, Rounded, FullInv;
    FullInvParts(s);
    var img := s.inodes[d];
    var b := FileBlock(s, img, fb);
    var k := InsertEntries(s.data[b], 0, o, ino, name, kind);
    var blk := InsertAt(s.data[b], o, ino, name, kind);
    var t := s.PutData(b, blk);
    PutDirBlock(s, d, fb, blk);
    FullInvAfter(s, t, d);
    PartIs(s, img, fb);
    SameBlocks(s, t, img);
    assert Inserted(Part(s, img, fb), Part(t, img, fb), Entry(name, ino, kind));
    OnePart(s, t, img, img, 0, fb, Blocks(s, img), Entry(name, ino, kind));
  }

  lemma SameBlocks(s: Fs, t: Fs, img: Image)
    requires s.blockSize == t.blockSize > 0
    ensures Blocks(t, img) == Blocks(s, img)
  {
  }

  lemma PartIs(s: Fs, img: Image, fb: nat)
    requires s.blockSize > 0 && DirBlockOk(s, img, fb) && FileBlock(s, img, fb) != 0
    ensures Tiled(s.data[FileBlock(s, img, fb)], 0) && Part(s, img, fb) == Entries(s.data[FileBlock(s, img, fb)], 0)
  {
    hide FileBlock, Tiled, Entries;
  }

  lemma AppendKeeps(s: Fs, d: nat, b: nat, ino: nat, name: seq<Byte>, kind: Byte)
    requires FullInv(s) && d in s.live && d in s.inodes && IsDir(s.inodes[d])
    requires 0 < ino < TWO32 && 0 < |name| < 256
    requires b in s.data && b !in s.used && s.firstBlock <= b < s.blocksCount < TWO32
    requires Blocks(s, s.inodes[d]) < 12
    ensures EntryAdded(s, s.TakeBlock(b).PutInode(d, Extended(s, s.inodes[d], Blocks(s, s.inodes[d]), b))
                           .PutData(b, PutRec(Blank(s.blockSize), 0, ino, s.blockSize, name, kind)), d, Entry(name, ino, kind))
  {
    hide Sound, OthersSame, Tiled, Entries, DirOk, IsDir, Blocks, FullInv, Extended, PutRec, Dir;
    FullInvParts(s);
    var blk := PutRec(Blank(s.blockSize), 0, ino, s.blockSize, name, kind);
    WholeRecord(s.blockSize, ino, name, kind);
    AppendDirBlock(s, d, b, blk);
    var t := s.TakeBlock(b).PutInode(d, Extended(s, s.inodes[d], Blocks(s, s.inodes[d]), b)).PutData(b, blk);
    FullInvAfter(s, t, d);
    var was := Dir(s, s.inodes[d]);
    assert was[..|was|] == was && was[|was|..] == [];
  }

  /**
   Adding an entry: either it succeeds, and the directory gains exactly that pair, or it fails, and
   nothing but the contents of a free block has changed.
   */
  lemma AddEntryKeeps(s: Fs, d: nat, ino: nat, name: seq<Byte>, kind: Byte)
    requires FullInv(s) && d in s.live && d in s.inodes && IsDir(s.inodes[d]) && DirOk(s, s.inodes[d])
    requires 0 < ino < TWO32 && 0 < |name| < 256
    ensures s.Shape() && AddEntry(s, d, ino, name, kind).s.blockSize == s.blockSize
    ensures AddEntry(s, d, ino, name, kind).ok ==> EntryAdded(s, AddEntry(s, d, ino, name, kind).s, d, Entry(name, ino, kind))
    ensures !AddEntry(s, d, ino, name, kind).ok ==>
      var t := AddEntry(s, d, ino, name, kind).s;
      FullInv(t) && t.used == s.used && t.live == s.live && AllSame(s, t)
  {
    hide FullInv, DirOk, Sound, Tiled, FileBlock, EntryAdded, AllSame, FitBlock, FitRec, InsertAt, Extended, PutRec,
      Rounded, Blank, Size, Blocks, IsDir, OthersSame;
    FullInvParts(s);
    var img := s.inodes[d];
    DirSize(s, img);
    match FitBlock(s, img, Rounded(|name|), 0, Blocks(s, img))
    case Some(fb) =>
      InsertKeeps(s, d, fb, FitRec(s.data[FileBlock(s, img, fb)], 0, Rounded(|name|)).value, ino, name, kind);
    case None =>
      FirstFreeBlockIs(s, s.firstBlock);
      var nb := s.NewBlock();
      if nb == 0 {
        NothingChanged(s);
      } else if Blocks(s, img) >= 12 {
        PutFreeBlock(s, nb, Blank(s.blockSize));
        AllSameKeeps(s, s.PutData(nb, Blank(s.blockSize)));
      } else {
        AppendKeeps(s, d, nb, ino, name, kind);
      }
  }

  lemma DirSize(s: Fs, img: Image)
    requires s.blockSize > 0 && DirOk(s, img)
    ensures Size(img) / s.blockSize == Blocks(s, img)
  {
    hide FileBlock;
    WholeBlocks(s, img);
  }

  lemma NothingChanged(s: Fs)
    requires Sound(s)
    ensures AllSame(s, s)
  {
    hide FileBlock, Managed;
    forall j, gb: nat | j in s.live && j in s.inodes && Managed(s.inodes[j]) ensures SameBlockAt(s, s, s.inodes[j], gb) {
      FileBlockOwned(s, j, gb);
    }
  }

  lemma {:induction false} LookupAbsent(a: seq<Entry>, name: seq<Byte>)
    requires forall e | e in a :: e.name != name
    ensures Lookup(a, name) == 0
  {
    if a != [] {
      assert a[0] in a;
      LookupAbsent(a[1..], name);
    }
  }

  /** After adding a name that was not there, that name leads to the new inode and every other name where it did. */
  lemma InsertedLookup(a: seq<Entry>, b: seq<Entry>, e: Entry, name: seq<Byte>)
    requires Inserted(a, b, e) && e.ino != 0 && forall x | x in a :: x.ino != 0 && x.name != e.name
    ensures Lookup(b, name) == if name == e.name then e.ino else Lookup(a, name)
  {
    var k :| 0 <= k <= |a| && b == a[..k] + [e] + a[k..];
    assert a == a[..k] + a[k..];
    LookupMiddle(a[..k], e, a[k..], name);
    LookupConcat(a[..k], a[k..], name);
    if name == e.name {
      LookupAbsent(a[..k], name);
    }
  }

  lemma LookupMiddle(x: seq<Entry>, e: Entry, y: seq<Entry>, name: seq<Byte>)
    requires e.ino != 0 && forall z | z in x :: z.ino != 0
    ensures Lookup(x + [e] + y, name)
         == if Lookup(x, name) != 0 then Lookup(x, name) else if name == e.name then e.ino else Lookup(y, name)
  {
    assert x + [e] + y == x + ([e] + y) && ([e] + y)[1..] == y;
    LookupConcat(x, [e] + y, name);
  }

  // ----- removing -----

  /** First block of the directory, from fb on, with a record of this name. */
  function FindBlock(s: Fs, img: Image, name: seq<Byte>, fb: nat, n: nat): (r: Option<nat>)
    requires s.blockSize > 0 && DirOk(s, img)
    ensures r.Some? ==> fb <= r.value < n && DirBlockOk(s, img, r.value) && FileBlock(s, img, r.value) != 0
                        && FindRec(s.data[FileBlock(s, img, r.value)], 0, name).Some?
    decreases n - fb
  {
    if fb >= n then None
    else
      assert DirBlockOk(s, img, fb);
      var b := FileBlock(s, img, fb);
      if b != 0 && FindRec(s.data[b], 0, name).Some? then Some(fb) else FindBlock(s, img, name, fb + 1, n)
  }

  /** ext2_remove_dir_entry. */
  function RemoveEntry(s: Fs, d: nat, name: seq<Byte>): Added
    requires s.blockSize > 0 && d in s.inodes && DirOk(s, s.inodes[d])
  {
    var img := s.inodes[d];
    match FindBlock(s, img, name, 0, Blocks(s, img))
    case None => Added(s, false)
    case Some(fb) =>
      var b := FileBlock(s, img, fb);
      Added(s.PutData(b, ClearAt(s.data[b], FindRec(s.data[b], 0, name).value)), true)
  }

  /** The blocks in front of the first match do not have the name; the match is the first of its block. */
  lemma {:induction false} RemovePart(s: Fs, t: Fs, img: Image, name: seq<Byte>, fb: nat, at: nat, n: nat)
    requires s.blockSize > 0 && DirOk(s, img) && FindBlock(s, img, name, fb, n) == Some(at)
    requires forall gb: nat | gb != at :: Part(t, img, gb) == Part(s, img, gb)
    requires Part(t, img, at) == Without(Part(s, img, at), name)
    ensures EntriesFrom(t, img, fb, n) == Without(EntriesFrom(s, img, fb, n), name)
    ensures Lookup(EntriesFrom(s, img, fb, n), name) != 0
    decreases n - fb
  {
    hide *;
    FindBlockStep(s, img, name, fb, n, at);
    FromStep(s, img, fb, n);
    FromStep(t, img, fb, n);
    PartInos(s, img, fb);
    LookupConcat(Part(s, img, fb), EntriesFrom(s, img, fb + 1, n), name);
    WithoutConcat(Part(s, img, fb), EntriesFrom(s, img, fb + 1, n), name);
    PartFind(s, img, name, fb);
    if fb == at {
      SameParts(s, t, img, img, fb + 1, n);
    } else {
      RemovePart(s, t, img, name, fb + 1, at, n);
    }
  }

  lemma FromStep(s: Fs, img: Image, fb: nat, n: nat)
    requires fb < n
    ensures EntriesFrom(s, img, fb, n) == Part(s, img, fb) + EntriesFrom(s, img, fb + 1, n)
  {
    hide Part;
  }

  lemma FindBlockStep(s: Fs, img: Image, name: seq<Byte>, fb: nat, n: nat, at: nat)
    requires s.blockSize > 0 && DirOk(s, img) && FindBlock(s, img, name, fb, n) == Some(at)
    ensures fb <= at < n && DirBlockOk(s, img, fb)
    ensures fb == at <==> FileBlock(s, img, fb) != 0 && FindRec(s.data[FileBlock(s, img, fb)], 0, name).Some?
    ensures fb != at ==> FindBlock(s, img, name, fb + 1, n) == Some(at)
  {
    hide FileBlock, FindRec;
    assert DirBlockOk(s, img, fb);
  }

  lemma PartFind(s: Fs, img: Image, name: seq<Byte>, fb: nat)
    requires s.blockSize > 0 && DirOk(s, img)
    ensures DirBlockOk(s, img, fb)
    ensures Lookup(Part(s, img, fb), name) != 0
       <==> FileBlock(s, img, fb) != 0 && FindRec(s.data[FileBlock(s, img, fb)], 0, name).Some?
  {
    hide FileBlock, FindRec, Entries, Tiled;
    assert DirBlockOk(s, img, fb);
    var b := FileBlock(s, img, fb);
    if b != 0 {
      FindRecIs(s.data[b], 0, name);
    }
  }

  lemma {:induction false} NoBlock(s: Fs, img: Image, name: seq<Byte>, fb: nat, n: nat)
    requires s.blockSize > 0 && DirOk(s, img) && FindBlock(s, img, name, fb, n) == None
    ensures Lookup(EntriesFrom(s, img, fb, n), name) == 0
    decreases n - fb
  {
    hide FileBlock, Part, FindRec, Blocks, Lookup;
    if fb < n {
      PartInos(s, img, fb);
      LookupConcat(Part(s, img, fb), EntriesFrom(s, img, fb + 1, n), name);
      PartFind(s, img, name, fb);
      NoBlock(s, img, name, fb + 1, n);
    } else {
      LookupNil(name);
    }
  }

  lemma ClearKeeps(s: Fs, d: nat, fb: nat, o: nat, name: seq<Byte>)
    requires FullInv(s) && d in s.live && d in s.inodes && IsDir(s.inodes[d]) && DirOk(s, s.inodes[d])
    requires FindBlock(s, s.inodes[d], name, 0, Blocks(s, s.inodes[d])) == Some(fb) && DirBlockOk(s, s.inodes[d], fb)
    requires FindRec(s.data[FileBlock(s, s.inodes[d], fb)], 0, name) == Some(o)
    ensures var b := FileBlock(s, s.inodes[d], fb); var t := s.PutData(b, ClearAt(s.data[b], o));
      && FullInv(t) && OthersSame(s, t, d)
      && Dir(t, s.inodes[d]) == Without(Dir(s, s.inodes[d]), name) && Lookup(Dir(s, s.inodes[d]), name) != 0
  {
    hide FileBlock, Sound, OthersSame, Tiled, Entries, FindRec, ClearAt, DirOk, IsDir, Blocks, Part, Record, RecLen,
      FullInv, FindBlock, Without, Lookup;
    FullInvParts(s);
    var img := s.inodes[d];
    var b := FileBlock(s, img, fb);
    ClearEntries(s.data[b], 0, o, name);
    var blk := ClearAt(s.data[b], o);
    var t := s.PutData(b, blk);
    PutDirBlock(s, d, fb, blk);
    FullInvAfter(s, t, d);
    PartIs(s, img, fb);
    SameBlocks(s, t, img);
    RemovePart(s, t, img, name, 0, fb, Blocks(s, img));
  }

  /** Removing: exactly the first entry of that name goes; without one, nothing changes. */
  lemma RemoveEntryKeeps(s: Fs, d: nat, name: seq<Byte>)
    requires FullInv(s) && d in s.live && d in s.inodes && IsDir(s.inodes[d]) && DirOk(s, s.inodes[d])
    ensures s.blockSize > 0
    ensures var r := RemoveEntry(s, d, name);
      && r.s.blockSize == s.blockSize && FullInv(r.s)
      && r.s.used == s.used && r.s.live == s.live && r.s.inodes == s.inodes && OthersSame(s, r.s, d)
      && (r.ok <==> Lookup(Dir(s, s.inodes[d]), name) != 0)
      && Dir(r.s, s.inodes[d]) == if r.ok then Without(Dir(s, s.inodes[d]), name) else Dir(s, s.inodes[d])
  {
    hide FileBlock, Sound, OthersSame, FindRec, ClearAt, DirOk, IsDir, Blocks, EntriesFrom, FullInv, FindBlock, Without, Lookup;
    FullInvParts(s);
    var img := s.inodes[d];
    match FindBlock(s, img, name, 0, Blocks(s, img))
    case None =>
      NoBlock(s, img, name, 0, Blocks(s, img));
      NothingChanged(s);
      AllOthers(s, s, d);
    case Some(fb) =>
      ClearKeeps(s, d, fb, FindRec(s.data[FileBlock(s, img, fb)], 0, name).value, name);
  }

  lemma AllOthers(s: Fs, t: Fs, d: nat)
    requires AllSame(s, t)
    ensures OthersSame(s, t, d)
  {
    hide Managed, SameFile;
  }
}
