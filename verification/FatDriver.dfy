/** The FAT32 driver on a disk of sectors. */
module FatDriver {
  import opened Arith
  import opened Bytes
  import opened FatTable
  import opened FatVolume
  import opened FatFiles

  /** The entry of cluster c as it lies in the sector that holds it. */
  lemma CachedEntry(v: Vol, c: nat, s: Sector)
    requires VolOk(v) && c < v.n && FatSec(v, 0, c) < |v.secs| && s == v.secs[FatSec(v, 0, c)]
    ensures c * 4 / 512 == c / 128 && c * 4 % 512 == FatOff(c) && c * 4 % 512 + 4 <= 512
    ensures Get32(s, c * 4 % 512) % LOW28 == Fat(v)[c] == Next(v, c)
  {
    hide Get32;
  }

  class Fat32 {
    const disk: array<Sector>
    const spc: nat
    const reserved: nat
    const nfats: nat
    const fatSize: nat
    const total: nat

    constructor (image: array<Sector>, sectorsPerCluster: nat, reservedSectors: nat, fatCount: nat, sectorsPerFat: nat, totalSectors: nat)
      requires sectorsPerCluster > 0 && reservedSectors + fatCount * sectorsPerFat <= totalSectors
      ensures disk == image && spc == sectorsPerCluster && reserved == reservedSectors && nfats == fatCount && fatSize == sectorsPerFat && total == totalSectors
    {
      disk, spc, reserved, nfats, fatSize, total := image, sectorsPerCluster, reservedSectors, fatCount, sectorsPerFat, totalSectors;
    }

    ghost function St(): Vol
      reads disk
      requires spc > 0 && reserved + nfats * fatSize <= total
    {
      Vol(spc, reserved, nfats, fatSize, (total - (reserved + nfats * fatSize)) / spc + 2, disk[..])
    }

    ghost predicate Valid()
      reads disk
    {
      spc > 0 && reserved + nfats * fatSize <= total && VolOk(St())
    }

    method GetNextCluster(cluster: nat) returns (next: nat)
      requires Valid() && cluster < St().n
      ensures next == Next(St(), cluster)
    {
      hide Get32, VolOk, FatSec, FatOff, Next, Fat;
      ghost var v := St();
      FirstCopy(v, cluster);
      CachedOff(cluster);
      var sector := disk[reserved + cluster * 4 / 512];
      next := Get32(sector, cluster * 4 % 512) % 0x1000_0000;
      CachedEntry(v, cluster, sector);
    }

    method WriteFatEntry(cluster: nat, value: nat)
      requires Valid() && cluster < St().n
      modifies disk
      ensures Valid() && St() == SetFat(old(St()), cluster, value)
    {
      hide Get32, Put32, Raw, VolOk;
      ghost var v := St();
      HasCopy(v);
      var i := 0;
      while i < nfats
        invariant i <= nfats && St() == SetFatTo(v, cluster, value, i)
      {
        ghost var now := St();
        FatSecIn(now, i, cluster);
        CachedOff(cluster);
        var s := reserved + cluster * 4 / 512 + i * fatSize;
        var sector := disk[s];
        var existing := Get32(sector, cluster * 4 % 512);
        RawIs(now, i, cluster);
        existing := Mix(existing, value);
        disk[s] := Put32(sector, cluster * 4 % 512, existing);
        PutRawIs(now, i, cluster, value);
        assert St() == PutRaw(now, i, cluster, value);
        i := i + 1;
      }
    }

    /** The search for a free cluster, which reads a sector of the table only when it enters it. */
    method FindFreeCluster() returns (c: nat)
      requires Valid()
      ensures c == FindFree(Fat(St()), 2)
    {
      hide Get32, Fat, FindFree, FatSec, VolOk, FatOff, Next;
      ghost var v := St();
      FatLen(v);
      var n := (total - (reserved + nfats * fatSize)) / spc;
      var cluster := 2;
      var sector := Zero();
      c := 0;
      while cluster < n + 2
        invariant 2 <= cluster <= n + 2 && FindFree(Fat(v), 2) == FindFree(Fat(v), cluster)
        invariant cluster > 2 ==> FatSec(v, 0, cluster - 1) < |v.secs| && sector == v.secs[FatSec(v, 0, cluster - 1)]
      {
        var sec, off := reserved + cluster * 4 / 512, cluster * 4 % 512;
        FirstCopy(v, cluster);
        if off == 0 || cluster == 2 {
          sector := disk[sec];
        }
        CachedEntry(v, cluster, sector);
        FindStep(Fat(v), cluster);
        if Get32(sector, off) % 0x1000_0000 == 0 {
          c := cluster;
          return;
        }
        cluster := cluster + 1;
      }
      FindEnd(Fat(v));
    }

    method AllocateCluster(prev: nat) returns (c: nat)
      requires Valid() && prev < St().n
      modifies disk
      ensures Valid() && c == FindFree(Fat(old(St())), 2)
      ensures St() == if c == 0 then old(St()) else Allocate(old(St()), prev)
    {
      hide SetFat, Fat, FindFree, VolOk, DataSec;
      ghost var v := St();
      FatLen(v);
      c := FindFreeCluster();
      if c == 0 {
        return;
      }
      FreeSmall(v);
      WriteFatEntry(c, 0x0FFFFFFF);
      ghost var a := St();
      var zero := Zero();
      var first := reserved + nfats * fatSize + (c - 2) * spc;
      var i := 0;
      while i < spc
        invariant i <= spc && St() == ZeroTo(a, c, i)
      {
        ghost var now := St();
        DataSecIn(now, c, i);
        PutSecIs(now, c, i, zero);
        disk[first + i] := zero;
        i := i + 1;
      }
      if prev != 0 {
        WriteFatEntry(prev, c);
      }
    }

    /** Free the clusters from start on; ends on any table whose entries stay in range. */
    method FreeChainFrom(start: nat)
      requires Valid() && InRange(Fat(St())) && (start < St().n || start >= EOC)
      modifies disk
      ensures Valid() && St() == FreeVol(old(St()), start)
    {
      hide SetFat, Fat, VolOk, NonZero, InRange;
      ghost var v := St();
      FatLen(v);
      var cluster: nat := start;
      while cluster >= 2 && cluster < 0x0FFFFFF8
        invariant Valid() && SameGeo(v, St()) && InRange(Fat(St())) && (cluster < v.n || cluster >= EOC)
        invariant FreeVol(St(), cluster) == FreeVol(v, start)
        decreases NonZero(Fat(St())), if 2 <= cluster < EOC then 1 else 0
      {
        FreeNext(St(), cluster);
        var next := GetNextCluster(cluster);
        WriteFatEntry(cluster, 0);
        cluster := next;
      }
    }

    /** Write the sectors of one cluster, number q of the file, until it or the buffer ends. */
    method WriteCluster(c: nat, buf: seq<Byte>, start: nat, ghost v0: Vol, ghost cs0: seq<nat>, ghost cs: seq<nat>, ghost q: nat) returns (n: nat)
      requires Valid() && q < |cs| && c == cs[q] && start == q * spc * 512 < |buf|
      requires Writing(v0, St(), cs0, cs, buf, start)
      modifies disk
      ensures Valid() && SameGeo(old(St()), St()) && start < n && Writing(v0, St(), cs0, cs, buf, n)
      ensures n == if |buf| < (q + 1) * spc * 512 then |buf| else (q + 1) * spc * 512
    {
      hide VolOk, Writing, SameGeo, DataSec, PutSec, Zeros, DataStart;
      WritingParts(v0, St(), cs0, cs, buf, start);
      ghost var geo, full := St(), (q + 1) * spc * 512;
      Spread(q, spc, spc);
      assert full == start + spc * 512;
      var first := reserved + nfats * fatSize + (c - 2) * spc;
      var i := 0;
      n := start;
      SameGeoRefl(geo);
      while i < spc
        invariant i <= spc && Valid() && SameGeo(geo, St()) && Writing(v0, St(), cs0, cs, buf, n)
        invariant n == start + i * 512 <= |buf| && (i < spc ==> n < |buf|)
      {
        ghost var now := St();
        var toCopy := 512;
        if |buf| - n < 512 {
          toCopy := |buf| - n;
        }
        var sector: Sector := buf[n..n + toCopy] + Zeros(512 - toCopy);
        Spread(q, spc, i);
        DataSecIs(now, c, i);
        StoreStep(geo, v0, now, cs0, cs, buf, q, i, sector, n, toCopy);
        disk[first + i] := sector;
        n := n + toCopy;
        i := i + 1;
        if n >= |buf| {
          break;
        }
      }
    }

    /** The write loop: walk the chain, extending it where it ends, until the buffer is stored or the disk is full. */
    method WriteData(fileCluster: nat, buf: seq<Byte>, ghost cs0: seq<nat>) returns (head: nat, n: nat, ghost cs: seq<nat>)
      requires Valid() && ChainOrNone(Fat(St()), cs0) && fileCluster == if cs0 == [] then 0 else cs0[0]
      modifies disk
      ensures Valid() && Writing(old(St()), St(), cs0, cs, buf, n)
      ensures head == if cs == [] then 0 else cs[0]
      ensures n < |buf| ==> FindFree(Fat(St()), 2) == 0 && n == |cs| * spc * 512
      ensures cs == cs0 || (|cs| - 1) * spc * 512 < |buf|
    {
      hide VolOk, Writing, SameGeo, Fat, FindFree, Allocate, ChainOrNone, Cursor, DataStart, Next;
      ghost var v0 := St();
      WritingStart(v0, cs0, buf);
      cs, head, n := cs0, fileCluster, 0;
      var current, prev := fileCluster, 0;
      ghost var q: nat := 0;
      CursorStart(v0, cs0);
      while n < |buf|
        invariant Valid() && Writing(v0, St(), cs0, cs, buf, n)
        invariant n == |buf| || n == q * spc * 512
        invariant cs == cs0 || (|cs| - 1) * spc * 512 < |buf|
        invariant Cursor(St(), cs, q, current, prev) && head == if cs == [] then 0 else cs[0]
        decreases |buf| - n
      {
        WritingParts(v0, St(), cs0, cs, buf, n);
        CursorEnd(St(), cs, q, current, prev);
        if current >= 0x0FFFFFF8 || current == 0 {
          ghost var w := St();
          if FindFree(Fat(w), 2) != 0 {
            GrowStep(v0, w, cs0, cs, buf, n);
          }
          var c := AllocateCluster(prev);
          if c == 0 {
            break;
          }
          if head == 0 {
            head := c;
          }
          cs := cs + [c];
          current := c;
          WritingParts(v0, St(), cs0, cs, buf, n);
        }
        n := WriteCluster(current, buf, n, v0, cs0, cs, q);
        WritingParts(v0, St(), cs0, cs, buf, n);
        InChain(St(), cs, q);
        prev := current;
        current := GetNextCluster(current);
        q := q + 1;
        CursorNext(St(), cs, q, current, prev);
      }
    }

    /** Write a whole file that was found in sector di of directory cluster dc, entry idx. */
    method WriteFile(dc: nat, di: nat, idx: nat, buf: seq<Byte>, ghost cs0: seq<nat>) returns (n: nat, ghost cs: seq<nat>, ghost w: Vol)
      requires Valid() && 2 <= dc < St().n && di < spc && idx < 16 && |buf| < TWO32
      requires ChainOrNone(Fat(St()), cs0) && EntryCluster(SecAt(St(), dc, di), idx) == if cs0 == [] then 0 else cs0[0]
      modifies disk
      ensures Valid() && Written(old(St()), St(), dc, di, idx, cs0, cs, buf, n, w)
      ensures n < |buf| ==> FindFree(Fat(w), 2) == 0 && n == |cs| * spc * 512
      ensures cs == cs0 || (|cs| - 1) * spc * 512 < |buf|
    {
      hide VolOk, Writing, Fat, FindFree, EntryCluster, PutEntry, IsChain, PutSec, DataSec, DataStart;
      ghost var v0 := St();
      DataSecIn(v0, dc, di);
      DataSecIs(v0, dc, di);
      var sec := reserved + nfats * fatSize + (dc - 2) * spc + di;
      var sector := disk[sec];
      var head;
      head, n, cs := WriteData(EntryCluster(sector, idx), buf, cs0);
      w := St();
      WritingLen(v0, w, cs0, cs, buf, n);
      sector := disk[sec];
      DataSecIs(w, dc, di);
      ghost var e := PutEntry(SecAt(w, dc, di), idx, if cs == [] then 0 else cs[0], n);
      PutSecIs(w, dc, di, e);
      disk[sec] := PutEntry(sector, idx, head, n);
    }

    /** The bytes of sector i of the file's cluster number q that the request asks for. */
    method ReadSector(sector: Sector, buffer: array<Byte>, r0: nat, pos0: nat, offset: nat, toRead: nat, ghost cs: seq<nat>, ghost q: nat, ghost i: nat) returns (r: nat, pos: nat)
      requires Valid() && ClustersIn(St(), cs) && q < |cs| && i < spc && sector == SecAt(St(), cs[q], i)
      requires pos0 == (q * spc + i) * 512 && offset < pos0 + 512 && r0 < toRead <= buffer.Length
      requires Copied(St(), cs, buffer[..], r0, pos0, offset, toRead)
      modifies buffer
      ensures Copied(St(), cs, buffer[..], r, pos, offset, toRead) && buffer[toRead..] == old(buffer[toRead..])
      ensures r <= toRead && if r < toRead then pos == pos0 + 512 else pos <= pos0 + 512
    {
      hide VolOk, SecAt, FileByte, ClustersIn;
      ghost var v := St();
      r, pos := r0, pos0;
      var k := 0;
      while k < 512 && r < toRead
        invariant k <= 512 && pos == pos0 + k && r <= toRead && St() == v
        invariant Copied(v, cs, buffer[..], r, pos, offset, toRead) && buffer[toRead..] == old(buffer[toRead..])
        decreases 512 - k
      {
        ghost var was := buffer[..];
        ByteAt(v, cs, pos, q, i);
        if pos >= offset {
          buffer[r] := sector[k];
          r := r + 1;
        }
        CopiedNext(v, cs, was, buffer[..], pos, offset, toRead, sector[k]);
        k := k + 1;
        pos := pos + 1;
      }
    }

    /** Read size bytes at offset of a file of fileSize bytes on the chain cs. */
    method ReadFile(fileCluster: nat, fileSize: nat, buffer: array<Byte>, size: nat, offset: nat, ghost cs: seq<nat>) returns (r: nat)
      requires Valid() && fileSize < TWO32 && size < TWO32 && offset + size < TWO32
      requires offset < fileSize ==> Min(offset + size, fileSize) <= 0xFFFFFE00
      requires fileSize > 0 ==> cs != [] && IsChain(Fat(St()), cs) && fileCluster == cs[0] && fileSize <= |cs| * spc * 512
      requires buffer.Length >= ToRead(fileSize, offset, size)
      modifies buffer
      ensures r == if offset < fileSize then Min(size, fileSize - offset) else 0
      ensures r > 0 ==> ClustersIn(St(), cs) && buffer[..r] == FileData(St(), cs, offset, offset + r)
      ensures buffer[r..] == old(buffer[r..])
    {
      hide VolOk, Fat, SecAt, IsChain, FileByte, ClustersIn, FileData;
      r := 0;
      if offset >= fileSize {
        return;
      }
      var toRead := size;
      if (offset + size) % 0x1_0000_0000 > fileSize {
        toRead := fileSize - offset;
      }
      r := ReadChain(fileCluster, buffer, offset, toRead, cs);
    }

    /** The loop over the chain. */
    method ReadChain(fileCluster: nat, buffer: array<Byte>, offset: nat, toRead: nat, ghost cs: seq<nat>) returns (r: nat)
      requires Valid() && cs != [] && IsChain(Fat(St()), cs) && fileCluster == cs[0] && offset + toRead <= |cs| * spc * 512
      requires toRead <= buffer.Length && offset + toRead <= 0xFFFFFE00
      modifies buffer
      ensures r == toRead && ClustersIn(St(), cs) && buffer[..r] == FileData(St(), cs, offset, offset + r)
      ensures buffer[r..] == old(buffer[r..])
    {
      hide VolOk, Fat, SecAt, IsChain, FileByte, ClustersIn, FileData, Copied;
      ghost var v := St();
      ChainIn(v, cs);
      var cluster: nat, pos := fileCluster, 0;
      ghost var q: nat := 0;
      r := 0;
      CopiedStart(v, cs, buffer[..], offset, toRead);
      ghost var rest := buffer[toRead..];
      while cluster < 0x0FFFFFF8 && r < toRead
        invariant St() == v && q <= |cs| && (q < |cs| ==> cluster == cs[q]) && (q == |cs| ==> cluster >= EOC)
        invariant Copied(v, cs, buffer[..], r, pos, offset, toRead) && buffer[toRead..] == rest
        invariant r < toRead ==> pos == q * spc * 512
        decreases |cs| - q
      {
        InChain(v, cs, q);
        r, pos := ReadCluster(cluster, buffer, r, pos, offset, toRead, cs, q);
        cluster := GetNextCluster(cluster);
        q := q + 1;
      }
      if q < |cs| {
        InChain(v, cs, q);
      }
      CopiedDone(v, cs, buffer[..], r, pos, offset, toRead);
    }

    method ReadCluster(c: nat, buffer: array<Byte>, r0: nat, pos0: nat, offset: nat, toRead: nat, ghost cs: seq<nat>, ghost q: nat) returns (r: nat, pos: nat)
      requires Valid() && ClustersIn(St(), cs) && q < |cs| && c == cs[q] && pos0 == q * spc * 512
      requires r0 < toRead <= buffer.Length && offset + toRead <= 0xFFFFFE00
      requires Copied(St(), cs, buffer[..], r0, pos0, offset, toRead)
      modifies buffer
      ensures Copied(St(), cs, buffer[..], r, pos, offset, toRead) && buffer[toRead..] == old(buffer[toRead..])
      ensures r < toRead ==> pos == (q + 1) * spc * 512
    {
      hide VolOk, SecAt, FileByte, DataSec, DataStart, Copied;
      ghost var v := St();
      var first := reserved + nfats * fatSize + (c - 2) * spc;
      r, pos := r0, pos0;
      var i := 0;
      Spread(q, spc, 0);
      while i < spc && r < toRead
        invariant i <= spc && r <= toRead && St() == v
        invariant Copied(v, cs, buffer[..], r, pos, offset, toRead) && buffer[toRead..] == old(buffer[toRead..])
        invariant r < toRead ==> pos == (q * spc + i) * 512
        decreases spc - i
      {
        PosBound(v, cs, buffer[..], r, pos, offset, toRead);
        if (pos + 512) % 0x1_0000_0000 <= offset {
          CopiedSkip(v, cs, buffer[..], r, pos, offset, toRead);
          pos := pos + 512;
        } else {
          DataSecIn(v, c, i);
          DataSecIs(v, c, i);
          SecIs(v, c, i);
          r, pos := ReadSector(disk[first + i], buffer, r, pos, offset, toRead, cs, q, i);
        }
        i := i + 1;
      }
    }
  }

  /** At position pos, r bytes of the request have been copied. */
  ghost predicate Copied(v: Vol, cs: seq<nat>, buffer: seq<Byte>, r: nat, pos: nat, offset: nat, toRead: nat)
    requires VolOk(v) && ClustersIn(v, cs)
  {
    && r <= toRead <= |buffer| && r == (if pos <= offset then 0 else pos - offset)
    && forall k: nat | k < r :: buffer[k] == FileByte(v, cs, offset + k)
  }

  lemma CopiedStart(v: Vol, cs: seq<nat>, buffer: seq<Byte>, offset: nat, toRead: nat)
    requires VolOk(v) && ClustersIn(v, cs) && toRead <= |buffer|
    ensures Copied(v, cs, buffer, 0, 0, offset, toRead)
  {
  }

  lemma CopiedNext(v: Vol, cs: seq<nat>, was: seq<Byte>, now: seq<Byte>, pos: nat, offset: nat, toRead: nat, b: Byte)
    requires VolOk(v) && ClustersIn(v, cs) && b == FileByte(v, cs, pos)
    requires Copied(v, cs, was, if pos <= offset then 0 else pos - offset, pos, offset, toRead)
    requires pos >= offset ==> pos - offset < toRead && now == was[pos - offset := b]
    requires pos < offset ==> now == was
    ensures Copied(v, cs, now, if pos + 1 <= offset then 0 else pos + 1 - offset, pos + 1, offset, toRead)
  {
    hide VolOk, FileByte, ClustersIn;
  }

  lemma PosBound(v: Vol, cs: seq<nat>, buffer: seq<Byte>, r: nat, pos: nat, offset: nat, toRead: nat)
    requires VolOk(v) && ClustersIn(v, cs) && Copied(v, cs, buffer, r, pos, offset, toRead) && r < toRead
    ensures pos < offset + toRead
  {
  }

  lemma CopiedSkip(v: Vol, cs: seq<nat>, buffer: seq<Byte>, r: nat, pos: nat, offset: nat, toRead: nat)
    requires VolOk(v) && ClustersIn(v, cs) && Copied(v, cs, buffer, r, pos, offset, toRead) && pos + 512 <= offset
    ensures Copied(v, cs, buffer, r, pos + 512, offset, toRead)
  {
  }

  lemma CopiedDone(v: Vol, cs: seq<nat>, buffer: seq<Byte>, r: nat, pos: nat, offset: nat, toRead: nat)
    requires VolOk(v) && ClustersIn(v, cs) && Copied(v, cs, buffer, r, pos, offset, toRead)
    ensures r <= toRead <= |buffer| && buffer[..r] == FileData(v, cs, offset, offset + r)
    ensures pos >= offset + toRead ==> r == toRead
  {
    hide VolOk, FileByte, ClustersIn;
  }

  lemma SecIs(v: Vol, c: nat, i: nat)
    requires VolOk(v) && 2 <= c < v.n && i < v.spc && DataSec(v, c, i) < |v.secs|
    ensures SecAt(v, c, i) == v.secs[DataSec(v, c, i)]
  {
  }

  /** current is the cluster at position q of the chain, or 0 or an end mark behind it; prev is the one before it, or 0. */
  predicate Cursor(v: Vol, cs: seq<nat>, q: nat, current: nat, prev: nat) {
    && q <= |cs|
    && (if q < |cs| then current == cs[q] else if q == 0 then current == 0 else current >= EOC)
    && (if q == 0 then prev == 0 else prev == cs[q - 1])
  }

  lemma CursorStart(v: Vol, cs: seq<nat>)
    ensures Cursor(v, cs, 0, if cs == [] then 0 else cs[0], 0)
  {
  }

  /** The loop's test recognises the end of the chain. */
  lemma CursorEnd(v: Vol, cs: seq<nat>, q: nat, current: nat, prev: nat)
    requires VolOk(v) && Cursor(v, cs, q, current, prev) && ChainOrNone(Fat(v), cs)
    ensures current >= EOC || current == 0 <==> q == |cs|
    ensures q <= |cs| && (q < |cs| ==> current == cs[q])
    ensures q == |cs| ==> prev == LastOf(cs)
    ensures prev < v.n
    ensures cs != [] ==> cs[0] != 0
  {
    hide Fat;
    FatLen(v);
  }

  lemma InChain(v: Vol, cs: seq<nat>, q: nat)
    requires VolOk(v) && ChainOrNone(Fat(v), cs) && q < |cs|
    ensures 2 <= cs[q] < v.n < EOC + 1
    ensures q + 1 < |cs| ==> Next(v, cs[q]) == cs[q + 1]
    ensures q + 1 == |cs| ==> Next(v, cs[q]) >= EOC
  {
    hide Raw;
    assert Fat(v)[cs[q]] == Next(v, cs[q]);
  }

  lemma CursorNext(v: Vol, cs: seq<nat>, q: nat, current: nat, prev: nat)
    requires VolOk(v) && ChainOrNone(Fat(v), cs) && 0 < q <= |cs| && prev == cs[q - 1] && prev < v.n && current == Next(v, prev)
    ensures Cursor(v, cs, q, current, prev)
  {
    hide Fat, Next;
    InChain(v, cs, q - 1);
  }

  lemma DataSecIs(v: Vol, c: nat, i: nat)
    requires c >= 2
    ensures DataSec(v, c, i) == v.fatStart + v.nfats * v.fatSize + (c - 2) * v.spc + i
  {
  }

  lemma WritingLen(v0: Vol, w: Vol, cs0: seq<nat>, cs: seq<nat>, buf: seq<Byte>, n: nat)
    requires Writing(v0, w, cs0, cs, buf, n)
    ensures VolOk(w) && SameGeo(v0, w) && n <= |buf| && (cs != [] ==> 2 <= cs[0] < EOC)
  {
    hide Raw, Fat, IsChain, Agree, TopsKept, FileByte, Frame;
    FatLen(w);
  }

  lemma Spread(q: nat, spc: nat, i: nat)
    ensures (q * spc + i) * 512 == q * spc * 512 + i * 512 && (q + 1) * spc * 512 == q * spc * 512 + spc * 512
  {
  }

  lemma SameGeoRefl(v: Vol)
    ensures SameGeo(v, v)
  {
  }

  /** Storing the next sector of the file, the last one filled up with zeros. */
  lemma StoreStep(geo: Vol, v0: Vol, w: Vol, cs0: seq<nat>, cs: seq<nat>, buf: seq<Byte>, q: nat, i: nat, s: Sector, n: nat, k: nat)
    requires n == (q * w.spc + i) * 512 && q < |cs| && i < w.spc && Writing(v0, w, cs0, cs, buf, n) && SameGeo(geo, w)
    requires 0 < k <= 512 && n + k <= |buf|
    requires s == buf[n..n + k] + Zeros(512 - k)
    ensures 2 <= cs[q] < w.n && DataSec(w, cs[q], i) < |w.secs| && VolOk(w)
    ensures Writing(v0, PutSec(w, cs[q], i, s), cs0, cs, buf, n + k) && SameGeo(geo, PutSec(w, cs[q], i, s))
    ensures PutSec(w, cs[q], i, s) == w.(secs := w.secs[DataSec(w, cs[q], i) := s])
  {
    hide VolOk, Writing, SameGeo, DataSec, PutSec;
    WritingParts(v0, w, cs0, cs, buf, n);
    assert s[..k] == buf[n..n + k];
    PutStep(v0, w, cs0, cs, buf, q, i, s, k);
    DataSecIn(w, cs[q], i);
    PutSecIs(w, cs[q], i, s);
    SameGeoStep(geo, w, cs[q], i, s);
  }

  lemma SameGeoStep(g: Vol, v: Vol, c: nat, i: nat, s: Sector)
    requires VolOk(v) && 2 <= c < v.n && i < v.spc && SameGeo(g, v)
    ensures VolOk(PutSec(v, c, i, s)) && SameGeo(g, PutSec(v, c, i, s))
  {
  }

  lemma WritingParts(v0: Vol, w: Vol, cs0: seq<nat>, cs: seq<nat>, buf: seq<Byte>, n: nat)
    requires Writing(v0, w, cs0, cs, buf, n)
    ensures VolOk(w) && VolOk(v0) && SameGeo(v0, w) && ClustersIn(w, cs) && ChainOrNone(Fat(w), cs) && ChainOrNone(Fat(v0), cs0) && w.spc > 0
  {
  }

  lemma PutSecIs(v: Vol, c: nat, i: nat, s: Sector)
    requires VolOk(v) && 2 <= c < v.n && i < v.spc && DataSec(v, c, i) < |v.secs|
    ensures PutSec(v, c, i, s) == v.(secs := v.secs[v.fatStart + v.nfats * v.fatSize + (c - 2) * v.spc + i := s])
    ensures DataSec(v, c, i) == v.fatStart + v.nfats * v.fatSize + (c - 2) * v.spc + i
  {
  }

  lemma FirstCopy(v: Vol, c: nat)
    requires VolOk(v) && c < v.n
    ensures FatSec(v, 0, c) == v.fatStart + c * 4 / 512 < |v.secs|
    ensures c > 0 && c * 4 % 512 != 0 ==> FatSec(v, 0, c) == FatSec(v, 0, c - 1)
  {
    FatSecIn(v, 0, c);
    HasCopy(v);
    CachedOff(c);
  }

  lemma FindStep(fat: seq<nat>, c: nat)
    requires c < |fat|
    ensures FindFree(fat, c) == if fat[c] == 0 then c else FindFree(fat, c + 1)
  {
  }

  lemma FindEnd(fat: seq<nat>)
    ensures FindFree(fat, |fat|) == 0
  {
  }

  lemma CachedOff(c: nat)
    ensures c * 4 / 512 == c / 128 && c * 4 % 512 == FatOff(c) && c * 4 % 512 + 4 <= 512
  {
  }

  lemma RawIs(v: Vol, k: nat, c: nat)
    requires VolOk(v) && k < v.nfats && c < v.n && FatSec(v, k, c) < |v.secs|
    ensures Raw(v, k, c) == Get32(v.secs[FatSec(v, k, c)], FatOff(c))
  {
  }

  lemma PutRawIs(v: Vol, k: nat, c: nat, value: nat)
    requires VolOk(v) && k < v.nfats && c < v.n && FatSec(v, k, c) < |v.secs|
    ensures PutRaw(v, k, c, value) == v.(secs := v.secs[FatSec(v, k, c) := Put32(v.secs[FatSec(v, k, c)], FatOff(c), Mix(Raw(v, k, c), value))])
  {
  }
}
