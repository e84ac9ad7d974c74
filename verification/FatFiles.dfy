/** Files on a FAT32 volume: allocation, the write loop's relation to what was there, reading back, freeing. */
module FatFiles {
  import opened Arith
  import opened Bytes
  import opened FatTable
  import opened FatVolume

  function Zeros(n: nat): (z: seq<Byte>)
    ensures |z| == n
  {
    seq<Byte>(n, _ => 0)
  }

  function Zero(): Sector {
    Zeros(512)
  }

  function ZeroTo(v: Vol, c: nat, m: nat): (r: Vol)
    requires VolOk(v) && 2 <= c < v.n && m <= v.spc
    ensures VolOk(r) && SameGeo(v, r)
  {
    if m == 0 then v else PutSec(ZeroTo(v, c, m - 1), c, m - 1, Zero())
  }

  /** Take the lowest free cluster, mark it as an end, clear its sectors, link it behind prev unless prev is 0. */
  function Allocate(v: Vol, prev: nat): (r: Vol)
    requires VolOk(v) && prev < v.n
    ensures VolOk(r) && SameGeo(v, r)
  {
    var c := FindFree(Fat(v), 2);
    if c == 0 then v
    else
      var z := ZeroTo(SetFat(v, c, LAST), c, v.spc);
      if prev != 0 then SetFat(z, prev, c) else z
  }

  lemma {:induction false} ZeroToIs(v: Vol, c: nat, m: nat)
    requires VolOk(v) && 2 <= c < v.n && m <= v.spc
    ensures Fat(ZeroTo(v, c, m)) == Fat(v) && (Agree(v) ==> Agree(ZeroTo(v, c, m))) && TopsKept(v, ZeroTo(v, c, m))
  {
    hide VolOk, Raw, Fat, Agree, PutSec;
    if m > 0 {
      ZeroToIs(v, c, m - 1);
      var w := ZeroTo(v, c, m - 1);
      PutSecFat(w, c, m - 1, Zero());
      TopsTrans(v, w, PutSec(w, c, m - 1, Zero()));
    } else {
      TopsRefl(v);
    }
  }

  lemma TopsRefl(v: Vol)
    requires VolOk(v)
    ensures TopsKept(v, v)
  {
  }

  lemma {:induction false} ZeroToSec(v: Vol, c: nat, m: nat, d: nat, j: nat)
    requires VolOk(v) && 2 <= c < v.n && m <= v.spc && 2 <= d < v.n && j < v.spc
    ensures SecAt(ZeroTo(v, c, m), d, j) == if d == c && j < m then Zero() else SecAt(v, d, j)
  {
    hide VolOk, SecAt, PutSec;
    if m > 0 {
      ZeroToSec(v, c, m - 1, d, j);
      PutSecAt(ZeroTo(v, c, m - 1), c, m - 1, Zero(), d, j);
    }
  }

  /** Allocation's effect on the table and on the data of every cluster. */
  lemma AllocateIs(v: Vol, prev: nat)
    requires VolOk(v) && prev < v.n && FindFree(Fat(v), 2) != 0
    ensures var c := FindFree(Fat(v), 2); Fat(Allocate(v, prev)) == if prev != 0 then Fat(v)[c := LAST][prev := c] else Fat(v)[c := LAST]
    ensures Agree(v) ==> Agree(Allocate(v, prev))
    ensures TopsKept(v, Allocate(v, prev))
  {
    hide VolOk, Raw, Fat, Agree, SetFat, ZeroTo, TopsKept;
    var c := FindFree(Fat(v), 2);
    FreeSmall(v);
    var a := SetFat(v, c, LAST);
    SetFatIs(v, c, LAST);
    var z := ZeroTo(a, c, v.spc);
    ZeroToIs(a, c, v.spc);
    TopsTrans(v, a, z);
    if prev != 0 {
      SetFatIs(z, prev, c);
      TopsTrans(v, z, SetFat(z, prev, c));
    }
  }

  lemma FreeSmall(v: Vol)
    requires VolOk(v)
    ensures FindFree(Fat(v), 2) < EOC && (FindFree(Fat(v), 2) != 0 ==> 2 <= FindFree(Fat(v), 2) < v.n)
  {
    hide FindFree, Fat;
  }

  lemma AllocateSec(v: Vol, prev: nat, d: nat, j: nat)
    requires VolOk(v) && prev < v.n && FindFree(Fat(v), 2) != 0 && 2 <= d < v.n && j < v.spc
    ensures SecAt(Allocate(v, prev), d, j) == if d == FindFree(Fat(v), 2) then Zero() else SecAt(v, d, j)
  {
    hide VolOk, Raw, Fat, SetFat, ZeroTo, SecAt;
    var c := FindFree(Fat(v), 2);
    FreeSmall(v);
    var a := SetFat(v, c, LAST);
    SetFatSec(v, c, LAST, d, j);
    var z := ZeroTo(a, c, v.spc);
    ZeroToSec(a, c, v.spc, d, j);
    if prev != 0 {
      SetFatSec(z, prev, c, d, j);
    }
  }

  // ----- writing -----

  predicate ChainOrNone(fat: seq<nat>, cs: seq<nat>) {
    cs == [] || IsChain(fat, cs)
  }

  /** Every cluster in use that is not of cs0 has the entry and the data it had. */
  ghost predicate Frame(v: Vol, w: Vol, cs0: seq<nat>)
    requires VolOk(v) && VolOk(w) && SameGeo(v, w)
  {
    forall d | 2 <= d < v.n && Fat(v)[d] != 0 && d !in cs0 :: Fat(w)[d] == Fat(v)[d] && SameCluster(v, w, d)
  }

  /** The clusters cs are those of cs0 followed by clusters that were free. */
  predicate Grown(fat: seq<nat>, cs0: seq<nat>, cs: seq<nat>) {
    cs0 <= cs && forall c | c in cs :: c in cs0 || (c < |fat| && fat[c] == 0)
  }

  predicate Holds(v: Vol, cs: seq<nat>, buf: seq<Byte>, n: nat)
    requires VolOk(v) && ClustersIn(v, cs)
  {
    n <= |buf| && n <= |cs| * v.spc * 512 && forall p | 0 <= p < n :: FileByte(v, cs, p) == buf[p]
  }

  /** n rounded up to whole sectors. */
  function UpSec(n: nat): (u: nat)
    ensures n <= u < n + 512 && u % 512 == 0
  {
    (n + 511) / 512 * 512
  }

  /** Behind the n bytes stored: zeros to the end of that sector, then what the old file had, zeros in its new clusters. */
  ghost predicate Rest(v0: Vol, w: Vol, cs0: seq<nat>, cs: seq<nat>, n: nat)
    requires VolOk(v0) && VolOk(w) && ClustersIn(v0, cs0) && ClustersIn(w, cs)
  {
    forall p: nat | n <= p < |cs| * w.spc * 512 :: FileByte(w, cs, p) == if p < UpSec(n) then 0 else FileByte(v0, cs0, p)
  }

  /** From v0 to w the file on cs0 has become the file on cs, whose first n bytes are those of buf. */
  ghost predicate Writing(v0: Vol, w: Vol, cs0: seq<nat>, cs: seq<nat>, buf: seq<Byte>, n: nat) {
    && VolOk(v0) && VolOk(w) && SameGeo(v0, w)
    && (Agree(v0) ==> Agree(w)) && TopsKept(v0, w)
    && ChainOrNone(Fat(v0), cs0) && ChainOrNone(Fat(w), cs)
    && Grown(Fat(v0), cs0, cs)
    && Frame(v0, w, cs0)
    && ClustersIn(w, cs) && Holds(w, cs, buf, n)
    && ClustersIn(v0, cs0) && Rest(v0, w, cs0, cs, n)
  }

  lemma WritingStart(v: Vol, cs: seq<nat>, buf: seq<Byte>)
    requires VolOk(v) && ChainOrNone(Fat(v), cs)
    ensures Writing(v, v, cs, cs, buf, 0)
  {
    hide VolOk, Raw, Fat, FileByte;
    FatLen(v);
  }

  lemma FatLen(v: Vol)
    requires VolOk(v)
    ensures |Fat(v)| == v.n && 2 <= v.n <= EOC && v.spc > 0
  {
  }

  function LastOf(cs: seq<nat>): nat {
    if cs == [] then 0 else cs[|cs| - 1]
  }

  lemma GrowFresh(v0: Vol, w: Vol, cs0: seq<nat>, cs: seq<nat>, c: nat)
    requires VolOk(v0) && VolOk(w) && SameGeo(v0, w) && ChainOrNone(Fat(w), cs) && cs0 <= cs && Frame(v0, w, cs0)
    requires 2 <= c < w.n && Fat(w)[c] == 0
    ensures c !in cs && Fat(v0)[c] == 0
  {
    hide VolOk, Fat, SameCluster, IsChain;
    if c in cs0 {
      PrefixIn(cs0, cs, c);
    }
    if c in cs {
      ChainUsed(Fat(w), cs, c);
    }
  }

  lemma PrefixIn(a: seq<nat>, b: seq<nat>, c: nat)
    requires a <= b && c in a
    ensures c in b
  {
    var i :| 0 <= i < |a| && a[i] == c;
    assert b[i] == c;
  }

  lemma GrowChain(fat: seq<nat>, cs: seq<nat>, c: nat)
    requires |fat| <= EOC && ChainOrNone(fat, cs) && 2 <= c < |fat| && fat[c] == 0
    ensures LastOf(cs) < |fat|
    ensures IsChain(if LastOf(cs) != 0 then fat[c := LAST][LastOf(cs) := c] else fat[c := LAST], cs + [c])
  {
    if cs != [] {
      Extend(fat, cs, c);
    }
  }

  lemma ChainIn(v: Vol, cs: seq<nat>)
    requires VolOk(v) && ChainOrNone(Fat(v), cs)
    ensures ClustersIn(v, cs) && LastOf(cs) < v.n
  {
    hide Fat;
    FatLen(v);
  }

  /** Bytes of the old clusters are bytes of the longer list. */
  lemma HoldsLonger(v: Vol, cs: seq<nat>, w: Vol, c: nat, buf: seq<Byte>, n: nat)
    requires VolOk(v) && VolOk(w) && SameGeo(v, w) && ClustersIn(v, cs) && ClustersIn(w, cs + [c]) && Holds(v, cs, buf, n)
    requires forall d | d in cs :: 2 <= d < v.n ==> SameCluster(v, w, d)
    ensures Holds(w, cs + [c], buf, n)
  {
    hide VolOk, FileByte, SameCluster;
    FatLen(v);
    forall p | 0 <= p < n ensures FileByte(w, cs + [c], p) == buf[p] {
      ClustersPrefix(w, cs, c);
      FileByteSame(v, w, cs, p);
      InFileIff(v, cs, p);
      BytePrefix(w, cs, c, p);
    }
    MulMono(|cs|, |cs| + 1, v.spc);
  }

  lemma ClustersPrefix(v: Vol, cs: seq<nat>, c: nat)
    requires ClustersIn(v, cs + [c])
    ensures ClustersIn(v, cs)
  {
    forall i | 0 <= i < |cs| ensures 2 <= cs[i] < v.n {
      assert (cs + [c])[i] == cs[i];
    }
  }

  lemma BytePrefix(v: Vol, cs: seq<nat>, c: nat, p: nat)
    requires VolOk(v) && ClustersIn(v, cs) && ClustersIn(v, cs + [c]) && InFile(v, cs, p)
    ensures FileByte(v, cs + [c], p) == FileByte(v, cs, p)
  {
    hide SecAt;
    assert (cs + [c])[p / 512 / v.spc] == cs[p / 512 / v.spc];
  }

  /** One more cluster for the file. */
  lemma GrowStep(v0: Vol, w: Vol, cs0: seq<nat>, cs: seq<nat>, buf: seq<Byte>, n: nat)
    requires Writing(v0, w, cs0, cs, buf, n) && FindFree(Fat(w), 2) != 0
    ensures LastOf(cs) < w.n
    ensures Writing(v0, Allocate(w, LastOf(cs)), cs0, cs + [FindFree(Fat(w), 2)], buf, n)
  {
    hide VolOk, Raw, Fat, Agree, TopsKept, SecAt, FileByte, IsChain, Allocate, SameCluster, FindFree, Holds;
    var c := FindFree(Fat(w), 2);
    FreeSmall(w);
    FatLen(w);
    FatLen(v0);
    ChainIn(w, cs);
    FreeEntry(w);
    var prev := LastOf(cs);
    var x := Allocate(w, prev);
    AllocateIs(w, prev);
    TopsTrans(v0, w, x);
    GrowFresh(v0, w, cs0, cs, c);
    GrowChain(Fat(w), cs, c);
    ChainIn(x, cs + [c]);
    forall d | 2 <= d < w.n && d != c ensures SameCluster(w, x, d) {
      AllocateSame(w, prev, d);
    }
    GrowFrame(v0, w, x, cs0, cs, c);
    HoldsLonger(w, cs, x, c, buf, n);
    forall j | 0 <= j < w.spc ensures SecAt(x, c, j) == Zero() {
      AllocateSec(w, prev, c, j);
    }
    RestGrow(v0, w, x, cs0, cs, c, n);
  }

  lemma RestGrow(v0: Vol, w: Vol, x: Vol, cs0: seq<nat>, cs: seq<nat>, c: nat, n: nat)
    requires VolOk(v0) && VolOk(w) && VolOk(x) && SameGeo(v0, w) && SameGeo(w, x)
    requires ClustersIn(v0, cs0) && ClustersIn(w, cs) && ClustersIn(x, cs + [c]) && cs0 <= cs && 2 <= c < x.n
    requires Rest(v0, w, cs0, cs, n) && forall d | d in cs :: 2 <= d < w.n ==> SameCluster(w, x, d)
    requires forall j | 0 <= j < x.spc :: SecAt(x, c, j) == Zero()
    ensures Rest(v0, x, cs0, cs + [c], n)
  {
    hide VolOk, FileByte, SecAt, SameCluster, UpSec, ClustersIn, InFile, Zero;
    FatLen(w);
    ClustersPrefix(x, cs, c);
    forall p: nat | n <= p < |cs + [c]| * x.spc * 512
      ensures FileByte(x, cs + [c], p) == if p < UpSec(n) then 0 else FileByte(v0, cs0, p)
    {
      InFileIff(x, cs, p);
      if p < |cs| * w.spc * 512 {
        FileByteSame(w, x, cs, p);
        BytePrefix(x, cs, c, p);
      } else {
        InFileIff(x, cs + [c], p);
        NewByte(x, cs, c, p);
        Beyond(v0, cs0, p, |cs|);
      }
    }
  }

  lemma NewByte(x: Vol, cs: seq<nat>, c: nat, p: nat)
    requires VolOk(x) && ClustersIn(x, cs + [c]) && InFile(x, cs + [c], p) && !InFile(x, cs, p) && 2 <= c < x.n
    requires forall j | 0 <= j < x.spc :: SecAt(x, c, j) == Zero()
    ensures FileByte(x, cs + [c], p) == 0
  {
    hide SecAt;
    assert (cs + [c])[p / 512 / x.spc] == c;
  }

  lemma Beyond(v: Vol, cs: seq<nat>, p: nat, m: nat)
    requires VolOk(v) && ClustersIn(v, cs) && |cs| <= m && m * v.spc * 512 <= p
    ensures FileByte(v, cs, p) == 0
  {
    hide SecAt;
    InFileIff(v, cs, p);
    MulMono(|cs|, m, v.spc);
  }

  lemma FreeEntry(v: Vol)
    requires VolOk(v) && FindFree(Fat(v), 2) != 0
    ensures 2 <= FindFree(Fat(v), 2) < v.n && Fat(v)[FindFree(Fat(v), 2)] == 0
  {
  }

  lemma AllocateSame(v: Vol, prev: nat, d: nat)
    requires VolOk(v) && prev < v.n && FindFree(Fat(v), 2) != 0 && 2 <= d < v.n && d != FindFree(Fat(v), 2)
    ensures SameCluster(v, Allocate(v, prev), d)
  {
    hide VolOk, Fat, SecAt, Allocate, FindFree;
    forall j | 0 <= j < v.spc ensures SecAt(Allocate(v, prev), d, j) == SecAt(v, d, j) {
      AllocateSec(v, prev, d, j);
    }
  }

  lemma SameTrans(u: Vol, v: Vol, w: Vol, d: nat)
    requires VolOk(u) && VolOk(v) && VolOk(w) && SameGeo(u, v) && SameGeo(v, w) && 2 <= d < u.n
    requires SameCluster(u, v, d) && SameCluster(v, w, d)
    ensures SameCluster(u, w, d)
  {
    hide VolOk, SecAt;
  }

  lemma GrowFrame(v0: Vol, w: Vol, x: Vol, cs0: seq<nat>, cs: seq<nat>, c: nat)
    requires VolOk(v0) && VolOk(w) && VolOk(x) && SameGeo(v0, w) && SameGeo(w, x) && Frame(v0, w, cs0)
    requires Grown(Fat(v0), cs0, cs) && c < w.n && Fat(v0)[c] == 0 && c >= 2
    requires LastOf(cs) < w.n && Fat(x) == if LastOf(cs) != 0 then Fat(w)[c := LAST][LastOf(cs) := c] else Fat(w)[c := LAST]
    requires forall d | 2 <= d < w.n && d != c :: SameCluster(w, x, d)
    ensures Frame(v0, x, cs0)
    ensures Grown(Fat(v0), cs0, cs + [c])
  {
    hide VolOk, Fat, SameCluster;
    FatLen(v0);
    forall d | 2 <= d < v0.n && Fat(v0)[d] != 0 && d !in cs0 ensures Fat(x)[d] == Fat(v0)[d] && SameCluster(v0, x, d) {
      if cs != [] {
        assert cs[|cs| - 1] in cs;
      }
      SameTrans(v0, w, x, d);
    }
  }

  /** One more sector of data: sector i of the file's cluster number q. */
  lemma PutStep(v0: Vol, w: Vol, cs0: seq<nat>, cs: seq<nat>, buf: seq<Byte>, q: nat, i: nat, s: Sector, k: nat)
    requires w.spc > 0 && q < |cs| && i < w.spc && Writing(v0, w, cs0, cs, buf, (q * w.spc + i) * 512)
    requires k <= 512 && (q * w.spc + i) * 512 + k <= |buf| && s[..k] == buf[(q * w.spc + i) * 512..(q * w.spc + i) * 512 + k]
    requires k > 0 && forall o | k <= o < 512 :: s[o] == 0
    ensures 2 <= cs[q] < w.n
    ensures Writing(v0, PutSec(w, cs[q], i, s), cs0, cs, buf, (q * w.spc + i) * 512 + k)
  {
    hide VolOk, Raw, Fat, Agree, TopsKept, SecAt, FileByte, IsChain, PutSec, SameCluster, Holds;
    FatLen(w);
    FatLen(v0);
    var x := PutSec(w, cs[q], i, s);
    PutSecFat(w, cs[q], i, s);
    TopsTrans(v0, w, x);
    assert cs[q] in cs;
    forall d | 2 <= d < w.n && d != cs[q] ensures SameCluster(w, x, d) {
      PutSame(w, cs[q], i, s, d);
    }
    forall d | 2 <= d < v0.n && Fat(v0)[d] != 0 && d !in cs0 ensures Fat(x)[d] == Fat(v0)[d] && SameCluster(v0, x, d) {
      SameTrans(v0, w, x, d);
    }
    ChainNoDup(Fat(w), cs);
    PutHolds(w, cs, buf, q, i, s, k);
    PutRest(v0, w, cs0, cs, q, i, s, k);
  }

  lemma PutRest(v0: Vol, w: Vol, cs0: seq<nat>, cs: seq<nat>, q: nat, i: nat, s: Sector, k: nat)
    requires VolOk(v0) && VolOk(w) && ClustersIn(v0, cs0) && ClustersIn(w, cs) && NoDup(cs) && q < |cs| && i < w.spc
    requires Rest(v0, w, cs0, cs, (q * w.spc + i) * 512) && 0 < k <= 512 && forall o | k <= o < 512 :: s[o] == 0
    ensures Rest(v0, PutSec(w, cs[q], i, s), cs0, cs, (q * w.spc + i) * 512 + k)
  {
    hide VolOk, SecAt, FileByte, PutSec, NoDup, InFile;
    FatLen(w);
    var x, a := PutSec(w, cs[q], i, s), q * w.spc + i;
    assert UpSec(a * 512) == a * 512 && UpSec(a * 512 + k) == (a + 1) * 512;
    forall p: nat | a * 512 + k <= p < |cs| * w.spc * 512
      ensures FileByte(x, cs, p) == if p < UpSec(a * 512 + k) then 0 else FileByte(v0, cs0, p)
    {
      if p < (a + 1) * 512 {
        ByteAt(x, cs, p, q, i);
        PutSecAt(w, cs[q], i, s, cs[q], i);
      } else {
        InFileIff(w, cs, p);
        PutByteOther(w, cs, q, i, s, p);
      }
    }
  }

  lemma PutSame(w: Vol, c: nat, i: nat, s: Sector, d: nat)
    requires VolOk(w) && 2 <= c < w.n && i < w.spc && 2 <= d < w.n && d != c
    ensures SameCluster(w, PutSec(w, c, i, s), d)
  {
    hide VolOk, SecAt, PutSec;
    forall j | 0 <= j < w.spc ensures SecAt(PutSec(w, c, i, s), d, j) == SecAt(w, d, j) {
      PutSecAt(w, c, i, s, d, j);
    }
  }

  /** Byte p of the file is byte p % 512 of sector j of cluster number r, where p / 512 == r * spc + j. */
  lemma ByteAt(v: Vol, cs: seq<nat>, p: nat, r: nat, j: nat)
    requires VolOk(v) && ClustersIn(v, cs) && r < |cs| && j < v.spc && p / 512 == r * v.spc + j
    ensures InFile(v, cs, p) && FileByte(v, cs, p) == SecAt(v, cs[r], j)[p % 512]
  {
    hide SecAt, VolOk;
    DivMod(r, j, v.spc);
  }

  lemma PutHolds(w: Vol, cs: seq<nat>, buf: seq<Byte>, q: nat, i: nat, s: Sector, k: nat)
    requires VolOk(w) && ClustersIn(w, cs) && NoDup(cs) && q < |cs| && i < w.spc && Holds(w, cs, buf, (q * w.spc + i) * 512)
    requires k <= 512 && (q * w.spc + i) * 512 + k <= |buf| && s[..k] == buf[(q * w.spc + i) * 512..(q * w.spc + i) * 512 + k]
    ensures Holds(PutSec(w, cs[q], i, s), cs, buf, (q * w.spc + i) * 512 + k)
  {
    hide VolOk, SecAt, FileByte, PutSec, NoDup;
    FatLen(w);
    var x, a := PutSec(w, cs[q], i, s), q * w.spc + i;
    MulStep(q, |cs|, w.spc);
    forall p | 0 <= p < a * 512 + k ensures FileByte(x, cs, p) == buf[p] {
      if p < a * 512 {
        MulStep(q, |cs|, w.spc);
        InFileIff(w, cs, p);
        PutByteOther(w, cs, q, i, s, p);
      } else {
        ByteAt(x, cs, p, q, i);
        PutSecAt(w, cs[q], i, s, cs[q], i);
        assert s[..k][p - a * 512] == buf[a * 512..a * 512 + k][p - a * 512];
      }
    }
  }

  lemma PutByteOther(w: Vol, cs: seq<nat>, q: nat, i: nat, s: Sector, p: nat)
    requires VolOk(w) && ClustersIn(w, cs) && NoDup(cs) && q < |cs| && i < w.spc && p / 512 != q * w.spc + i && InFile(w, cs, p)
    ensures FileByte(PutSec(w, cs[q], i, s), cs, p) == FileByte(w, cs, p)
  {
    hide SecAt, FileByte, PutSec, VolOk;
    FatLen(w);
    var r, j := p / 512 / w.spc, p / 512 % w.spc;
    ByteAt(w, cs, p, r, j);
    ByteAt(PutSec(w, cs[q], i, s), cs, p, r, j);
    PutSecAt(w, cs[q], i, s, cs[r], j);
  }

  // ----- what was written is what is read -----

  /** Reading any part of the n bytes stored gives that part of the buffer. */
  lemma ReadBack(v0: Vol, w: Vol, cs0: seq<nat>, cs: seq<nat>, buf: seq<Byte>, n: nat, from: nat, to: nat)
    requires Writing(v0, w, cs0, cs, buf, n) && from <= to <= n
    ensures FileData(w, cs, from, to) == buf[from..to]
  {
    hide VolOk, Raw, Fat, Agree, TopsKept, FileByte, IsChain, Frame;
    forall i: nat | i < to - from ensures FileData(w, cs, from, to)[i] == buf[from..to][i] {
      assert FileByte(w, cs, from + i) == buf[from + i];
    }
  }

  /** The whole file after the write: the bytes stored, zeros to the end of the sector, then the old file, zeros in its new clusters. */
  lemma WholeFile(v0: Vol, w: Vol, cs0: seq<nat>, cs: seq<nat>, buf: seq<Byte>, n: nat)
    requires Writing(v0, w, cs0, cs, buf, n)
    ensures UpSec(n) <= |cs| * w.spc * 512
    ensures FileData(w, cs, 0, |cs| * w.spc * 512) == buf[..n] + Zeros(UpSec(n) - n) + FileData(v0, cs0, UpSec(n), |cs| * w.spc * 512)
  {
    hide VolOk, Raw, Fat, Agree, TopsKept, FileByte, IsChain, Frame, UpSec, ClustersIn;
    UpIn(n, |cs| * w.spc);
    var d := FileData(w, cs, 0, |cs| * w.spc * 512);
    var e := buf[..n] + Zeros(UpSec(n) - n) + FileData(v0, cs0, UpSec(n), |cs| * w.spc * 512);
    forall p: nat | p < |d| ensures d[p] == e[p] {
      assert d[p] == FileByte(w, cs, p);
    }
  }

  lemma UpIn(n: nat, m: nat)
    requires n <= m * 512
    ensures UpSec(n) <= m * 512
  {
  }

  /** Another file keeps its chain and its bytes, and stays apart. */
  lemma OthersKept(v0: Vol, w: Vol, cs0: seq<nat>, cs: seq<nat>, buf: seq<Byte>, n: nat, ds: seq<nat>, from: nat, to: nat)
    requires Writing(v0, w, cs0, cs, buf, n) && IsChain(Fat(v0), ds) && Apart(cs0, ds) && from <= to
    ensures IsChain(Fat(w), ds) && Apart(cs, ds) && ClustersIn(v0, ds) && FileData(w, ds, from, to) == FileData(v0, ds, from, to)
  {
    hide VolOk, Raw, Fat, Agree, TopsKept, FileByte, IsChain, SameCluster, Holds, FileData;
    FatLen(v0);
    FatLen(w);
    ChainIn(v0, ds);
    forall d | d in ds ensures 2 <= d < v0.n && Fat(v0)[d] != 0 && d !in cs0 && Fat(w)[d] == Fat(v0)[d] && SameCluster(v0, w, d) {
      ChainUsed(Fat(v0), ds, d);
      var i :| 0 <= i < |ds| && ds[i] == d;
    }
    ChainFrame(Fat(v0), Fat(w), ds);
    FileDataSame(v0, w, ds, from, to);
  }

  /** The files of a volume: chains, no cluster in two of them. */
  ghost predicate FilesOk(v: Vol, files: seq<seq<nat>>) {
    && VolOk(v) && Agree(v)
    && (forall f | 0 <= f < |files| :: ChainOrNone(Fat(v), files[f]))
    && (forall f, g | 0 <= f < |files| && 0 <= g < |files| && f != g :: Apart(files[f], files[g]))
  }

  /** Writing a file keeps the volume's files disjoint chains. */
  lemma WriteKeepsFiles(v0: Vol, w: Vol, files: seq<seq<nat>>, f: nat, cs: seq<nat>, buf: seq<Byte>, n: nat)
    requires FilesOk(v0, files) && f < |files| && Writing(v0, w, files[f], cs, buf, n)
    ensures FilesOk(w, files[f := cs])
  {
    hide VolOk, Raw, Fat, Agree, TopsKept, IsChain, Holds, FileData, Frame, Grown, Apart;
    var r := files[f := cs];
    forall g | 0 <= g < |r| && g != f ensures ChainOrNone(Fat(w), files[g]) && Apart(cs, files[g]) && Apart(files[g], cs) {
      if files[g] == [] {
        ApartNone(cs);
      } else {
        OthersKept(v0, w, files[f], cs, buf, n, files[g], 0, 0);
        ApartSym(cs, files[g]);
      }
    }
  }

  lemma ApartNone(cs: seq<nat>)
    ensures Apart(cs, []) && Apart([], cs)
  {
  }

  lemma ApartSym(a: seq<nat>, b: seq<nat>)
    requires Apart(a, b)
    ensures Apart(b, a)
  {
  }

  // ----- freeing -----

  /** Follow the table from c, clearing each entry in every copy. */
  function FreeVol(v: Vol, c: nat): (r: Vol)
    requires VolOk(v) && InRange(Fat(v)) && (c < v.n || c >= EOC)
    ensures VolOk(r) && SameGeo(v, r)
    decreases NonZero(Fat(v)), if 2 <= c < EOC then 1 else 0
  {
    if 2 <= c < EOC then
      FreeNext(v, c);
      FreeVol(SetFat(v, c, 0), Next(v, c))
    else v
  }

  lemma FreeNext(v: Vol, c: nat)
    requires VolOk(v) && InRange(Fat(v)) && 2 <= c < v.n
    ensures Fat(SetFat(v, c, 0)) == Fat(v)[c := 0] && InRange(Fat(v)[c := 0]) && Fat(v)[c] == Next(v, c)
    ensures NonZero(Fat(v)[c := 0]) == NonZero(Fat(v)) - (if Next(v, c) == 0 then 0 else 1)
    ensures Next(v, c) < v.n || Next(v, c) >= EOC
    ensures Next(v, c) == 0 ==> !(2 <= Next(v, c) < EOC)
  {
    hide VolOk, Raw, SetFat, Agree, NonZero;
    FatLen(v);
    SetFatIs(v, c, 0);
    NonZeroClear(Fat(v), c);
  }

  /** On the volume the walk does what it does on the table, and touches no data. */
  lemma {:induction false} FreeVolIs(v: Vol, c: nat)
    requires VolOk(v) && InRange(Fat(v)) && (c < v.n || c >= EOC)
    ensures Fat(FreeVol(v, c)) == FreeChain(Fat(v), c)
    ensures (Agree(v) ==> Agree(FreeVol(v, c))) && TopsKept(v, FreeVol(v, c))
    decreases NonZero(Fat(v)), if 2 <= c < EOC then 1 else 0
  {
    hide VolOk, Raw, SetFat, Agree, NonZero, Fat, TopsKept, Next;
    FatLen(v);
    if 2 <= c < EOC {
      FreeNext(v, c);
      SetFatIs(v, c, 0);
      var w := SetFat(v, c, 0);
      FreeVolIs(w, Next(v, c));
      TopsTrans(v, w, FreeVol(w, Next(v, c)));
    } else {
      TopsRefl(v);
    }
  }

  lemma {:induction false} FreeVolData(v: Vol, c: nat, d: nat)
    requires VolOk(v) && InRange(Fat(v)) && (c < v.n || c >= EOC) && 2 <= d < v.n
    ensures SameCluster(v, FreeVol(v, c), d)
    decreases NonZero(Fat(v)), if 2 <= c < EOC then 1 else 0
  {
    hide VolOk, Raw, SetFat, NonZero, Fat, SecAt, Next;
    FatLen(v);
    if 2 <= c < EOC {
      FreeNext(v, c);
      var w := SetFat(v, c, 0);
      FreeVolData(w, Next(v, c), d);
      forall j | 0 <= j < v.spc ensures SecAt(w, d, j) == SecAt(v, d, j) {
        SetFatSec(v, c, 0, d, j);
      }
      SameTrans(v, w, FreeVol(w, Next(v, c)), d);
    }
  }

  /** Deleting a file frees exactly its clusters and leaves every other file. */
  lemma FreeKeepsFiles(v: Vol, files: seq<seq<nat>>, f: nat, g: nat, from: nat, to: nat)
    requires FilesOk(v, files) && InRange(Fat(v)) && f < |files| && g < |files| && f != g && files[f] != [] && from <= to
    ensures files[f][0] < v.n && ClustersIn(v, files[g])
    ensures FilesOk(FreeVol(v, files[f][0]), files[f := []])
    ensures forall d | 0 <= d < v.n :: Fat(FreeVol(v, files[f][0]))[d] == if d in files[f] then 0 else Fat(v)[d]
    ensures FileData(FreeVol(v, files[f][0]), files[g], from, to) == FileData(v, files[g], from, to)
  {
    hide VolOk, Raw, Agree, FileData, SameCluster, IsChain, Fat, FreeChain, TopsKept;
    FatLen(v);
    ChainIn(v, files[f]);
    ChainIn(v, files[g]);
    var w := FreeVol(v, files[f][0]);
    FreeVolIs(v, files[f][0]);
    forall d | 0 <= d < v.n ensures Fat(w)[d] == if d in files[f] then 0 else Fat(v)[d] {
      FreeChainExact(Fat(v), files[f], d);
    }
    forall h | 0 <= h < |files| && h != f ensures ChainOrNone(Fat(w), files[h]) {
      if files[h] != [] {
        FreeChainFrame(Fat(v), files[f], files[h]);
      }
    }
    forall h | 0 <= h < |files| ensures Apart([], files[h]) && Apart(files[h], []) {
      ApartNone(files[h]);
    }
    forall c | c in files[g] && 2 <= c < v.n ensures SameCluster(v, w, c) {
      FreeVolData(v, files[f][0], c);
    }
    FileDataSame(v, w, files[g], from, to);
  }

  // ----- the directory entry -----

  function EntryCluster(s: Sector, idx: nat): nat
    requires idx < 16
  {
    Get16(s, idx * 32 + 20) * 0x1_0000 + Get16(s, idx * 32 + 26)
  }

  function EntrySize(s: Sector, idx: nat): nat
    requires idx < 16
  {
    Get32(s, idx * 32 + 28)
  }

  /** The first cluster, unless there is none, and the size. */
  function PutEntry(s: Sector, idx: nat, head: nat, size: nat): Sector
    requires idx < 16 && head < TWO32 && size < TWO32
  {
    var h := if head != 0 then Put16(Put16(s, idx * 32 + 20, head / 0x1_0000), idx * 32 + 26, head % 0x1_0000) else s;
    Put32(h, idx * 32 + 28, size)
  }

  lemma PutEntryIs(s: Sector, idx: nat, head: nat, size: nat)
    requires idx < 16 && head < TWO32 && size < TWO32
    ensures EntryCluster(PutEntry(s, idx, head, size), idx) == if head != 0 then head else EntryCluster(s, idx)
    ensures EntrySize(PutEntry(s, idx, head, size), idx) == size
  {
    hide Put16, Put32, Get16, Get32;
    var a := Put16(s, idx * 32 + 20, head / 0x1_0000);
    var b := Put16(a, idx * 32 + 26, head % 0x1_0000);
    Put16Frame(a, idx * 32 + 26, head % 0x1_0000, idx * 32 + 20);
    var h := if head != 0 then b else s;
    Put32Frame(h, idx * 32 + 28, size, idx * 32 + 20);
    Put32Frame(h, idx * 32 + 28, size, idx * 32 + 26);
  }

  /** Byte counts as the 32-bit code computes them. */
  function ToRead(fileSize: nat, offset: nat, size: nat): nat {
    if offset >= fileSize then 0
    else if (offset + size) % TWO32 > fileSize then fileSize - offset
    else size
  }

  function Min(a: nat, b: nat): nat {
    if a < b then a else b
  }

  /** The count stays within the file exactly when offset + size does not wrap around. */
  lemma ToReadRightIff(fileSize: nat, offset: nat, size: nat)
    requires offset < fileSize < TWO32 && size < TWO32
    ensures ToRead(fileSize, offset, size) == Min(size, fileSize - offset) <==> offset + size < TWO32
  {
  }

  predicate Skips(pos: nat, offset: nat) {
    (pos + 512) % TWO32 <= offset
  }

  /** The test for skipping a sector is right exactly below the last sector of the 32-bit range. */
  lemma SkipsRightIff(pos: nat, offset: nat)
    requires pos % 512 == 0 && pos <= offset < TWO32
    ensures (Skips(pos, offset) <==> pos + 512 <= offset) <==> pos + 512 < TWO32
  {
  }

  /** What a whole-file write leaves: the file's data w, then its directory entry in sector di of cluster dc. */
  ghost predicate Written(v0: Vol, v: Vol, dc: nat, di: nat, idx: nat, cs0: seq<nat>, cs: seq<nat>, buf: seq<Byte>, n: nat, w: Vol) {
    && Writing(v0, w, cs0, cs, buf, n)
    && 2 <= dc < w.n && di < w.spc && idx < 16 && n < TWO32 && (cs != [] ==> cs[0] < TWO32)
    && v == PutSec(w, dc, di, PutEntry(SecAt(w, dc, di), idx, if cs == [] then 0 else cs[0], n))
  }

  /**
   Round trip: if the entry's directory cluster is in use and not the file's, the entry then names the
   file's chain and its length, and any part read back is that part of the buffer.
   */
  lemma RoundTrip(v0: Vol, v: Vol, dc: nat, di: nat, idx: nat, cs0: seq<nat>, cs: seq<nat>, buf: seq<Byte>, n: nat, w: Vol, from: nat, to: nat)
    requires Written(v0, v, dc, di, idx, cs0, cs, buf, n, w) && Fat(v0)[dc] != 0 && dc !in cs0 && from <= to <= n
    ensures VolOk(v) && SameGeo(v0, v) && ClustersIn(v, cs) && ChainOrNone(Fat(v), cs)
    ensures EntrySize(SecAt(v, dc, di), idx) == n
    ensures cs != [] ==> EntryCluster(SecAt(v, dc, di), idx) == cs[0]
    ensures FileData(v, cs, from, to) == buf[from..to]
  {
    hide VolOk, Raw, Fat, Agree, TopsKept, IsChain, SameCluster, FileData, SecAt, PutSec, Holds, PutEntry, EntryCluster, EntrySize, Frame;
    var s := PutEntry(SecAt(w, dc, di), idx, if cs == [] then 0 else cs[0], n);
    PutEntryIs(SecAt(w, dc, di), idx, if cs == [] then 0 else cs[0], n);
    PutSecAt(w, dc, di, s, dc, di);
    PutSecFat(w, dc, di, s);
    ChainIn(w, cs);
    if cs != [] {
      HeadIn(w, cs);
    }
    assert dc !in cs;
    forall d | d in cs && 2 <= d < w.n ensures SameCluster(w, v, d) {
      PutSame(w, dc, di, s, d);
    }
    FileDataSame(w, v, cs, from, to);
    ReadBack(v0, w, cs0, cs, buf, n, from, to);
  }

  lemma HeadIn(v: Vol, cs: seq<nat>)
    requires ClustersIn(v, cs) && cs != []
    ensures cs[0] >= 2
  {
  }

  /** The table after the whole write is that after the data. */
  lemma WrittenOthers(v0: Vol, v: Vol, dc: nat, di: nat, idx: nat, cs0: seq<nat>, cs: seq<nat>, buf: seq<Byte>, n: nat, w: Vol, ds: seq<nat>, from: nat, to: nat)
    requires Written(v0, v, dc, di, idx, cs0, cs, buf, n, w) && IsChain(Fat(v0), ds) && Apart(cs0, ds) && dc !in ds && from <= to
    ensures VolOk(v) && SameGeo(v0, v) && IsChain(Fat(v), ds) && Apart(cs, ds) && ClustersIn(v0, ds) && FileData(v, ds, from, to) == FileData(v0, ds, from, to)
  {
    hide VolOk, Raw, Fat, Agree, TopsKept, IsChain, SameCluster, FileData, SecAt, PutSec, Holds, PutEntry, Frame, Apart;
    OthersKept(v0, w, cs0, cs, buf, n, ds, from, to);
    var s := PutEntry(SecAt(w, dc, di), idx, if cs == [] then 0 else cs[0], n);
    PutSecFat(w, dc, di, s);
    forall d | d in ds && 2 <= d < w.n ensures SameCluster(w, v, d) {
      PutSame(w, dc, di, s, d);
    }
    FileDataSame(w, v, ds, from, to);
  }
}
