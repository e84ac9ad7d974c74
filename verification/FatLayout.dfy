/** The on-disk format of FAT32 byte by byte: table entries, directory entries and the place of a file's data. */
module FatLayout {
  import opened Arith
  import opened Bytes
  import opened FatTable
  import opened FatVolume
  import opened FatFiles

  // ----- the table -----

  /** Entry c is four bytes at c * 4 of the first table, its value the low 28 bits. */
  lemma EntryLayout(v: Vol, c: nat)
    requires VolOk(v) && c < v.n
    ensures v.fatStart + c * 4 / 512 < |v.secs| && c * 4 % 512 + 4 <= 512
    ensures Fat(v)[c] == Le28(v.secs[v.fatStart + c * 4 / 512], c * 4 % 512)
  {
    hide VolOk, Get32, Le28;
    HasCopy(v);
    FatSecIn(v, 0, c);
    PlaceIs(v, 0, c);
    var s := v.secs[FatSec(v, 0, c)];
    GetIs(s, FatOff(c));
    LowBits(s, FatOff(c));
  }

  /** Four bytes, the top half of the last one left out. */
  function Le28(b: seq<Byte>, o: nat): nat
    requires o + 4 <= |b|
  {
    b[o] as int + 0x100 * b[o + 1] as int + 0x1_0000 * b[o + 2] as int + 0x100_0000 * (b[o + 3] % 16) as int
  }

  lemma LowBits(b: seq<Byte>, o: nat)
    requires o + 4 <= |b|
    ensures Le32(b, o) % LOW28 == Le28(b, o)
  {
    var h, r := b[o + 3] / 16, b[o + 3] % 16;
    assert Le32(b, o) == h * LOW28 + Le28(b, o);
    DivMod(h, Le28(b, o), LOW28);
  }

  lemma PlaceIs(v: Vol, k: nat, c: nat)
    ensures FatSec(v, k, c) == v.fatStart + k * v.fatSize + c * 4 / 512 && FatOff(c) == c * 4 % 512
  {
  }

  /** A cluster marked as the end of a chain: FF FF FF and half an F in copy k, the other half kept. */
  lemma EndLayout(v: Vol, c: nat, k: nat)
    requires VolOk(v) && c < v.n && k < v.nfats
    ensures FatSec(v, k, c) < |v.secs| && FatOff(c) + 4 <= 512
    ensures EndMark(v.secs[FatSec(v, k, c)], SetFat(v, c, LAST).secs[FatSec(v, k, c)], FatOff(c))
  {
    hide VolOk, Get32, SetFatTo, EndMark;
    FatSecIn(v, k, c);
    var w := SetFat(v, c, LAST);
    SameFatSec(v, w, k, c);
    SetFatToRaw(v, c, LAST, v.nfats, k, c);
    var s, t := v.secs[FatSec(v, k, c)], w.secs[FatSec(v, k, c)];
    GetIs(s, FatOff(c));
    GetIs(t, FatOff(c));
    MixEnd(s, t, FatOff(c));
  }

  predicate EndMark(s: seq<Byte>, t: seq<Byte>, o: nat)
    requires o + 4 <= |s| && o + 4 <= |t|
  {
    t[o] == 0xFF && t[o + 1] == 0xFF && t[o + 2] == 0xFF && t[o + 3] % 16 == 0xF && t[o + 3] / 16 == s[o + 3] / 16
  }

  lemma MixEnd(s: seq<Byte>, t: seq<Byte>, o: nat)
    requires o + 4 <= |s| && o + 4 <= |t| && Le32(t, o) == Mix(Le32(s, o), LAST)
    ensures EndMark(s, t, o)
  {
    LowBits(s, o);
    LowBits(t, o);
  }

  // ----- the data -----

  /** Clusters are numbered from 2, spc sectors each, behind the reserved sectors and the tables. */
  function FirstSector(v: Vol, c: nat): nat
    requires c >= 2
  {
    v.fatStart + v.nfats * v.fatSize + (c - 2) * v.spc
  }

  /** Byte o of sector i of a file's cluster number q, on the disk. */
  lemma DataLayout(v: Vol, cs: seq<nat>, q: nat, i: nat, o: nat)
    requires VolOk(v) && ClustersIn(v, cs) && q < |cs| && i < v.spc && o < 512
    ensures FirstSector(v, cs[q]) + i < |v.secs|
    ensures FileByte(v, cs, (q * v.spc + i) * 512 + o) == v.secs[FirstSector(v, cs[q]) + i][o]
  {
    hide VolOk, FileByte;
    DataSecIn(v, cs[q], i);
    SectorOf(q * v.spc + i, o);
    ByteAt(v, cs, (q * v.spc + i) * 512 + o, q, i);
  }

  lemma SectorOf(s: nat, o: nat)
    requires o < 512
    ensures (s * 512 + o) / 512 == s && (s * 512 + o) % 512 == o
  {
  }

  // ----- directory entries -----

  /** Entry idx of a sector: first cluster in two halves at 20 and 26, size at 28. */
  lemma DirEntryLayout(s: Sector, idx: nat)
    requires idx < 16
    ensures EntryCluster(s, idx) == 0x1_0000 * Le16(s, idx * 32 + 20) + Le16(s, idx * 32 + 26)
    ensures EntrySize(s, idx) == Le32(s, idx * 32 + 28)
  {
    hide Get16, Get32, Le16, Le32;
    GetIs(s, idx * 32 + 20);
    GetIs(s, idx * 32 + 26);
    GetIs(s, idx * 32 + 28);
  }

  /** The update of an entry: these fields, and every other byte as it was. */
  lemma DirEntryWritten(s: Sector, idx: nat, head: nat, size: nat)
    requires idx < 16 && head < TWO32 && size < TWO32
    ensures var t := PutEntry(s, idx, head, size);
      && Le32(t, idx * 32 + 28) == size
      && (head != 0 ==> Le16(t, idx * 32 + 20) == head / 0x1_0000 && Le16(t, idx * 32 + 26) == head % 0x1_0000)
      && forall k: nat | k < 512 && !(28 <= k - idx * 32 < 32) && (head == 0 || !(20 <= k - idx * 32 < 22 || 26 <= k - idx * 32 < 28)) :: t[k] == s[k]
  {
    hide Put16, Put32;
    var a := Put16(s, idx * 32 + 20, head / 0x1_0000);
    PutIs(s, idx * 32 + 20, head / 0x1_0000);
    PutIs(a, idx * 32 + 26, head % 0x1_0000);
    PutIs(if head != 0 then Put16(a, idx * 32 + 26, head % 0x1_0000) else s, idx * 32 + 28, size);
  }
}
