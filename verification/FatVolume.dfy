/**
 A FAT32 volume as sectors: table entries in every copy of the table, data sectors of clusters, and
 how writing one leaves the others.
 */
module FatVolume {
  import opened Arith
  import opened Bytes
  import opened FatTable

  type Sector = s: seq<Byte> | |s| == 512 witness seq(512, _ => 0)

  const LOW28: nat := 0x1000_0000

  /** spc sectors per cluster, nfats tables of fatSize sectors from fatStart on, clusters 2..n, then the data. */
  datatype Vol = Vol(spc: nat, fatStart: nat, nfats: nat, fatSize: nat, n: nat, secs: seq<Sector>)

  function DataStart(v: Vol): nat {
    v.fatStart + v.nfats * v.fatSize
  }

  predicate VolOk(v: Vol) {
    && v.spc > 0 && v.nfats > 0 && 2 <= v.n <= EOC && v.n <= v.fatSize * 128
    && DataStart(v) + (v.n - 2) * v.spc <= |v.secs| < TWO32
  }

  predicate SameGeo(v: Vol, w: Vol) {
    w.spc == v.spc && w.fatStart == v.fatStart && w.nfats == v.nfats && w.fatSize == v.fatSize && w.n == v.n && |w.secs| == |v.secs|
  }

  // ----- table entries -----

  function FatSec(v: Vol, k: nat, c: nat): nat {
    v.fatStart + k * v.fatSize + c / 128
  }

  function FatOff(c: nat): nat {
    c % 128 * 4
  }

  lemma FatSecIn(v: Vol, k: nat, c: nat)
    requires VolOk(v) && k < v.nfats && c < v.n
    ensures v.fatStart <= FatSec(v, k, c) < DataStart(v) <= |v.secs| && FatOff(c) + 4 <= 512
  {
    MulStep(k, v.nfats, v.fatSize);
    assert c / 128 < v.fatSize;
    assert (v.n - 2) * v.spc >= 0;
  }

  /** Different entries lie in different sectors or at different offsets. */
  lemma FatSecApart(v: Vol, k: nat, c: nat, l: nat, d: nat)
    requires VolOk(v) && c < v.n && d < v.n && FatSec(v, k, c) == FatSec(v, l, d)
    ensures k == l && c / 128 == d / 128 && (c == d || FatOff(c) + 4 <= FatOff(d) || FatOff(d) + 4 <= FatOff(c))
  {
    assert c / 128 < v.fatSize && d / 128 < v.fatSize;
    DivUnique(k, c / 128, l, d / 128, v.fatSize);
  }

  /** The 32 bits stored for cluster c in copy k. */
  function Raw(v: Vol, k: nat, c: nat): (r: nat)
    requires VolOk(v) && k < v.nfats && c < v.n
    ensures r < TWO32
  {
    FatSecIn(v, k, c);
    Get32(v.secs[FatSec(v, k, c)], FatOff(c))
  }

  /** (old & 0xF0000000) | (value & 0x0FFFFFFF) */
  function Mix(raw: nat, value: nat): (r: nat)
    requires raw < TWO32
    ensures r < TWO32 && r % LOW28 == value % LOW28 && r / LOW28 == raw / LOW28
  {
    raw / LOW28 * LOW28 + value % LOW28
  }

  function PutRaw(v: Vol, k: nat, c: nat, value: nat): (r: Vol)
    requires VolOk(v) && k < v.nfats && c < v.n
    ensures VolOk(r) && SameGeo(v, r)
  {
    FatSecIn(v, k, c);
    var s := FatSec(v, k, c);
    v.(secs := v.secs[s := Put32(v.secs[s], FatOff(c), Mix(Raw(v, k, c), value))])
  }

  lemma PutRawAt(v: Vol, k: nat, c: nat, value: nat, l: nat, d: nat)
    requires VolOk(v) && k < v.nfats && c < v.n && l < v.nfats && d < v.n
    ensures Raw(PutRaw(v, k, c, value), l, d) == if l == k && d == c then Mix(Raw(v, k, c), value) else Raw(v, l, d)
  {
    hide Get32, Put32, Mix, FatSec, FatOff, VolOk;
    FatSecIn(v, k, c);
    FatSecIn(v, l, d);
    var r := PutRaw(v, k, c, value);
    SameFatSec(v, r, l, d);
    if FatSec(v, k, c) == FatSec(v, l, d) {
      FatSecApart(v, k, c, l, d);
      if d != c {
        Put32Frame(v.secs[FatSec(v, k, c)], FatOff(c), Mix(Raw(v, k, c), value), FatOff(d));
      }
    }
  }

  lemma SameFatSec(v: Vol, r: Vol, k: nat, c: nat)
    requires SameGeo(v, r)
    ensures FatSec(r, k, c) == FatSec(v, k, c) && DataStart(r) == DataStart(v)
  {
  }

  /** The entry written to the first m copies. */
  function SetFatTo(v: Vol, c: nat, value: nat, m: nat): (r: Vol)
    requires VolOk(v) && c < v.n && m <= v.nfats
    ensures VolOk(r) && SameGeo(v, r)
  {
    if m == 0 then v else PutRaw(SetFatTo(v, c, value, m - 1), m - 1, c, value)
  }

  function SetFat(v: Vol, c: nat, value: nat): (r: Vol)
    requires VolOk(v) && c < v.n
    ensures VolOk(r) && SameGeo(v, r)
  {
    SetFatTo(v, c, value, v.nfats)
  }

  lemma {:induction false} SetFatToRaw(v: Vol, c: nat, value: nat, m: nat, k: nat, d: nat)
    requires VolOk(v) && c < v.n && m <= v.nfats && k < v.nfats && d < v.n
    ensures Raw(SetFatTo(v, c, value, m), k, d) == if d == c && k < m then Mix(Raw(v, k, c), value) else Raw(v, k, d)
  {
    hide Raw, PutRaw, Mix, VolOk;
    if m > 0 {
      SetFatToRaw(v, c, value, m - 1, k, d);
      PutRawAt(SetFatTo(v, c, value, m - 1), m - 1, c, value, k, d);
    }
  }

  /** Sectors outside the tables are not touched. */
  lemma {:induction false} SetFatToSecs(v: Vol, c: nat, value: nat, m: nat, s: nat)
    requires VolOk(v) && c < v.n && m <= v.nfats && s < |v.secs| && (s < v.fatStart || DataStart(v) <= s)
    ensures SetFatTo(v, c, value, m).secs[s] == v.secs[s]
  {
    hide Raw, Mix, VolOk, Put32, FatSec;
    if m > 0 {
      SetFatToSecs(v, c, value, m - 1, s);
      var w := SetFatTo(v, c, value, m - 1);
      FatSecIn(w, m - 1, c);
      SameFatSec(v, w, m - 1, c);
    }
  }

  /** The table as the driver reads it: the low 28 bits of the first copy. */
  function Next(v: Vol, c: nat): (r: nat)
    requires VolOk(v) && c < v.n
    ensures r < LOW28
  {
    Raw(v, 0, c) % LOW28
  }

  function Fat(v: Vol): (f: seq<nat>)
    requires VolOk(v)
    ensures |f| == v.n
  {
    seq(v.n, c requires 0 <= c < v.n => Next(v, c))
  }

  /** All copies agree on the low 28 bits. */
  ghost predicate Agree(v: Vol)
    requires VolOk(v)
  {
    forall k, c | 0 <= k < v.nfats && 0 <= c < v.n :: Raw(v, k, c) % LOW28 == Next(v, c)
  }

  /** Every copy keeps its top 4 bits. */
  ghost predicate TopsKept(v: Vol, w: Vol)
    requires VolOk(v) && VolOk(w) && SameGeo(v, w)
  {
    forall k, c | 0 <= k < v.nfats && 0 <= c < v.n :: Raw(w, k, c) / LOW28 == Raw(v, k, c) / LOW28
  }

  /** Writing one entry: the low 28 bits change in that entry of every copy, and nothing else does. */
  lemma SetFatIs(v: Vol, c: nat, value: nat)
    requires VolOk(v) && c < v.n
    ensures Fat(SetFat(v, c, value)) == Fat(v)[c := value % LOW28]
    ensures Agree(v) ==> Agree(SetFat(v, c, value))
    ensures TopsKept(v, SetFat(v, c, value))
  {
    hide Raw, SetFatTo, VolOk, Mix;
    var w := SetFat(v, c, value);
    forall k: nat, d: nat | k < v.nfats && d < v.n
      ensures Raw(w, k, d) == if d == c then Mix(Raw(v, k, c), value) else Raw(v, k, d)
    {
      SetFatToRaw(v, c, value, v.nfats, k, d);
    }
    HasCopy(v);
    assert forall d | 0 <= d < v.n :: Fat(w)[d] == if d == c then value % LOW28 else Next(v, d);
  }

  lemma HasCopy(v: Vol)
    requires VolOk(v)
    ensures v.nfats > 0
  {
  }

  lemma TopsTrans(u: Vol, v: Vol, w: Vol)
    requires VolOk(u) && VolOk(v) && VolOk(w) && SameGeo(u, v) && SameGeo(v, w) && TopsKept(u, v) && TopsKept(v, w)
    ensures SameGeo(u, w) && TopsKept(u, w)
  {
    hide Raw, VolOk;
    forall k, c | 0 <= k < v.nfats && 0 <= c < v.n ensures Raw(w, k, c) / LOW28 == Raw(u, k, c) / LOW28 {
      assert Raw(v, k, c) / LOW28 == Raw(u, k, c) / LOW28;
    }
  }

  // ----- data sectors -----

  function DataSec(v: Vol, c: nat, i: nat): nat
    requires c >= 2
  {
    DataStart(v) + (c - 2) * v.spc + i
  }

  lemma DataSecIn(v: Vol, c: nat, i: nat)
    requires VolOk(v) && 2 <= c < v.n && i < v.spc
    ensures DataStart(v) <= DataSec(v, c, i) < |v.secs|
  {
    MulStep(c - 2, v.n - 2, v.spc);
  }

  lemma DataSecApart(v: Vol, c: nat, i: nat, d: nat, j: nat)
    requires c >= 2 && d >= 2 && i < v.spc && j < v.spc && DataSec(v, c, i) == DataSec(v, d, j)
    ensures c == d && i == j
  {
    DivUnique(c - 2, i, d - 2, j, v.spc);
  }

  function SecAt(v: Vol, c: nat, i: nat): Sector
    requires VolOk(v) && 2 <= c < v.n && i < v.spc
  {
    DataSecIn(v, c, i);
    v.secs[DataSec(v, c, i)]
  }

  function PutSec(v: Vol, c: nat, i: nat, d: Sector): (r: Vol)
    requires VolOk(v) && 2 <= c < v.n && i < v.spc
    ensures VolOk(r) && SameGeo(v, r)
  {
    DataSecIn(v, c, i);
    v.(secs := v.secs[DataSec(v, c, i) := d])
  }

  lemma PutSecAt(v: Vol, c: nat, i: nat, s: Sector, d: nat, j: nat)
    requires VolOk(v) && 2 <= c < v.n && i < v.spc && 2 <= d < v.n && j < v.spc
    ensures SecAt(PutSec(v, c, i, s), d, j) == if d == c && j == i then s else SecAt(v, d, j)
  {
    hide VolOk, DataStart;
    DataSecIn(v, c, i);
    DataSecIn(v, d, j);
    SameFatSec(v, PutSec(v, c, i, s), 0, 0);
    SameData(v, PutSec(v, c, i, s), d, j);
    if DataSec(v, c, i) == DataSec(v, d, j) {
      DataSecApart(v, c, i, d, j);
    }
  }

  lemma SameData(v: Vol, w: Vol, c: nat, i: nat)
    requires SameGeo(v, w) && c >= 2
    ensures DataSec(w, c, i) == DataSec(v, c, i)
  {
  }

  /** Writing outside the tables leaves every entry. */
  lemma SecsRaw(v: Vol, w: Vol, k: nat, c: nat)
    requires VolOk(v) && VolOk(w) && SameGeo(v, w) && k < v.nfats && c < v.n
    requires w.secs[..DataStart(v)] == v.secs[..DataStart(v)]
    ensures Raw(w, k, c) == Raw(v, k, c)
  {
    hide Get32;
    FatSecIn(v, k, c);
    SameFatSec(v, w, k, c);
    assert w.secs[FatSec(v, k, c)] == w.secs[..DataStart(v)][FatSec(v, k, c)];
    assert v.secs[FatSec(v, k, c)] == v.secs[..DataStart(v)][FatSec(v, k, c)];
  }

  lemma PutSecFat(v: Vol, c: nat, i: nat, d: Sector)
    requires VolOk(v) && 2 <= c < v.n && i < v.spc
    ensures Fat(PutSec(v, c, i, d)) == Fat(v) && (Agree(v) ==> Agree(PutSec(v, c, i, d))) && TopsKept(v, PutSec(v, c, i, d))
  {
    hide Raw, VolOk, DataSec, DataStart;
    var w := PutSec(v, c, i, d);
    DataSecIn(v, c, i);
    forall k: nat, d: nat | k < v.nfats && d < v.n ensures Raw(w, k, d) == Raw(v, k, d) {
      SecsRaw(v, w, k, d);
    }
    HasCopy(v);
    assert forall d | 0 <= d < v.n :: Next(w, d) == Next(v, d);
  }

  lemma SetFatSec(v: Vol, c: nat, value: nat, d: nat, j: nat)
    requires VolOk(v) && c < v.n && 2 <= d < v.n && j < v.spc
    ensures SecAt(SetFat(v, c, value), d, j) == SecAt(v, d, j)
  {
    hide VolOk, DataStart, SetFatTo;
    DataSecIn(v, d, j);
    SameData(v, SetFat(v, c, value), d, j);
    SetFatToSecs(v, c, value, v.nfats, DataSec(v, d, j));
  }

  // ----- files -----

  ghost predicate SameCluster(v: Vol, w: Vol, c: nat)
    requires VolOk(v) && VolOk(w) && SameGeo(v, w) && 2 <= c < v.n
  {
    forall i | 0 <= i < v.spc :: SecAt(w, c, i) == SecAt(v, c, i)
  }

  predicate ClustersIn(v: Vol, cs: seq<nat>) {
    forall i | 0 <= i < |cs| :: 2 <= cs[i] < v.n
  }

  /** Sector s of the file on the clusters cs. */
  function FileSec(v: Vol, cs: seq<nat>, s: nat): Sector
    requires VolOk(v) && ClustersIn(v, cs) && s / v.spc < |cs|
  {
    SecAt(v, cs[s / v.spc], s % v.spc)
  }

  predicate InFile(v: Vol, cs: seq<nat>, p: nat)
    requires v.spc > 0
  {
    p / 512 / v.spc < |cs|
  }

  /** Byte p of the file; 0 behind its last cluster. */
  function FileByte(v: Vol, cs: seq<nat>, p: nat): Byte
    requires VolOk(v) && ClustersIn(v, cs)
  {
    if InFile(v, cs, p) then FileSec(v, cs, p / 512)[p % 512] else 0
  }

  lemma InFileIff(v: Vol, cs: seq<nat>, p: nat)
    requires v.spc > 0
    ensures InFile(v, cs, p) <==> p < |cs| * v.spc * 512
  {
    var s := p / 512;
    var q, r := s / v.spc, s % v.spc;
    assert s == q * v.spc + r;
    if q < |cs| {
      MulStep(q, |cs|, v.spc);
    } else {
      MulMono(|cs|, q, v.spc);
    }
  }

  /** Bytes from..to of the file. */
  function FileData(v: Vol, cs: seq<nat>, from: nat, to: nat): (d: seq<Byte>)
    requires VolOk(v) && ClustersIn(v, cs) && from <= to
    ensures |d| == to - from
  {
    seq<Byte>(to - from, i requires i >= 0 => FileByte(v, cs, from + i))
  }

  lemma FileByteSame(v: Vol, w: Vol, cs: seq<nat>, p: nat)
    requires VolOk(v) && VolOk(w) && SameGeo(v, w) && ClustersIn(v, cs)
    requires forall c | c in cs :: 2 <= c < v.n ==> SameCluster(v, w, c)
    ensures FileByte(w, cs, p) == FileByte(v, cs, p)
  {
    hide SecAt;
    if InFile(v, cs, p) {
      assert cs[p / 512 / v.spc] in cs;
    }
  }

  /** A file's bytes depend on its own clusters only. */
  lemma FileDataSame(v: Vol, w: Vol, cs: seq<nat>, from: nat, to: nat)
    requires VolOk(v) && VolOk(w) && SameGeo(v, w) && ClustersIn(v, cs) && from <= to
    requires forall c | c in cs :: 2 <= c < v.n ==> SameCluster(v, w, c)
    ensures FileData(w, cs, from, to) == FileData(v, cs, from, to)
  {
    hide FileByte, VolOk, SameCluster;
    forall i: nat | i < to - from ensures FileData(w, cs, from, to)[i] == FileData(v, cs, from, to)[i] {
      FileByteSame(v, w, cs, from + i);
    }
  }
}
