/** Little-endian fields inside byte buffers, as the packed C structs of the drivers lay them out. */
module Bytes {

  type Byte = b: int | 0 <= b < 256

  const TWO32: int := 0x1_0000_0000

  /** memcpy of d into the buffer s at offset o. */
  function Splice<T>(s: seq<T>, o: nat, d: seq<T>): (r: seq<T>)
    requires o + |d| <= |s|
    ensures |r| == |s|
  {
    s[..o] + d + s[o + |d|..]
  }

  lemma SpliceAt<T>(s: seq<T>, o: nat, d: seq<T>)
    requires o + |d| <= |s|
    ensures forall k | 0 <= k < |s| :: Splice(s, o, d)[k] == if o <= k < o + |d| then d[k - o] else s[k]
  {
  }

  function Dec32(d: seq<Byte>): (v: nat)
    requires |d| == 4
    ensures v < TWO32
  {
    d[0] as int + 0x100 * (d[1] as int) + 0x1_0000 * (d[2] as int) + 0x100_0000 * (d[3] as int)
  }

  function Enc32(v: nat): (d: seq<Byte>)
    requires v < TWO32
    ensures |d| == 4 && Dec32(d) == v
  {
    var a := v / 256;
    var b := a / 256;
    [v % 256, a % 256, b % 256, b / 256]
  }

  function Get16(s: seq<Byte>, o: nat): (v: nat)
    requires o + 2 <= |s|
    ensures v < 0x1_0000
  {
    s[o] as int + 0x100 * (s[o + 1] as int)
  }

  function Get32(s: seq<Byte>, o: nat): (v: nat)
    requires o + 4 <= |s|
    ensures v < TWO32
  {
    Dec32(s[o..o + 4])
  }

  function Put16(s: seq<Byte>, o: nat, v: nat): (r: seq<Byte>)
    requires o + 2 <= |s| && v < 0x1_0000
    ensures |r| == |s| && Get16(r, o) == v
  {
    Splice(s, o, [v % 256, v / 256])
  }

  function Put32(s: seq<Byte>, o: nat, v: nat): (r: seq<Byte>)
    requires o + 4 <= |s| && v < TWO32
    ensures |r| == |s| && Get32(r, o) == v
  {
    assert Splice(s, o, Enc32(v))[o..o + 4] == Enc32(v);
    Splice(s, o, Enc32(v))
  }

  lemma Get32Frame(s: seq<Byte>, t: seq<Byte>, o: nat)
    requires o + 4 <= |s| && |t| == |s|
    requires forall k | o <= k < o + 4 :: s[k] == t[k]
    ensures Get32(s, o) == Get32(t, o)
  {
    hide Dec32;
    assert s[o..o + 4] == t[o..o + 4];
  }

  /** Storing a field leaves every field that does not overlap it. */
  lemma Put32Frame(s: seq<Byte>, o: nat, v: nat, p: nat)
    requires o + 4 <= |s| && v < TWO32
    ensures p + 4 <= |s| && (p + 4 <= o || o + 4 <= p) ==> Get32(Put32(s, o, v), p) == Get32(s, p)
    ensures p + 2 <= |s| && (p + 2 <= o || o + 4 <= p) ==> Get16(Put32(s, o, v), p) == Get16(s, p)
  {
    hide Enc32, Get32, Splice;
    SpliceAt(s, o, Enc32(v));
    if p + 4 <= |s| && (p + 4 <= o || o + 4 <= p) {
      Get32Frame(s, Put32(s, o, v), p);
    }
  }

  lemma Put16Frame(s: seq<Byte>, o: nat, v: nat, p: nat)
    requires o + 2 <= |s| && v < 0x1_0000
    ensures p + 4 <= |s| && (p + 4 <= o || o + 2 <= p) ==> Get32(Put16(s, o, v), p) == Get32(s, p)
    ensures p + 2 <= |s| && (p + 2 <= o || o + 2 <= p) ==> Get16(Put16(s, o, v), p) == Get16(s, p)
  {
    hide Get32, Splice;
    SpliceAt(s, o, [v % 256, v / 256]);
    if p + 4 <= |s| && (p + 4 <= o || o + 2 <= p) {
      Get32Frame(s, Put16(s, o, v), p);
    }
  }

  // ----- the fields on raw bytes -----

  function Le16(b: seq<Byte>, o: nat): nat
    requires o + 2 <= |b|
  {
    b[o] as int + 0x100 * b[o + 1] as int
  }

  function Le32(b: seq<Byte>, o: nat): nat
    requires o + 4 <= |b|
  {
    b[o] as int + 0x100 * b[o + 1] as int + 0x1_0000 * b[o + 2] as int + 0x100_0000 * b[o + 3] as int
  }

  lemma GetIs(b: seq<Byte>, o: nat)
    ensures o + 2 <= |b| ==> Get16(b, o) == Le16(b, o)
    ensures o + 4 <= |b| ==> Get32(b, o) == Le32(b, o)
  {
    if o + 4 <= |b| {
      var d := b[o..o + 4];
      assert d[0] == b[o] && d[1] == b[o + 1] && d[2] == b[o + 2] && d[3] == b[o + 3];
    }
  }

  /** b differs from a at most in the n bytes at o. */
  predicate OnlyAt(a: seq<Byte>, b: seq<Byte>, o: nat, n: nat) {
    |a| == |b| && forall k: nat | k < |a| && !(o <= k < o + n) :: b[k] == a[k]
  }

  lemma PutIs(a: seq<Byte>, o: nat, v: nat)
    ensures o + 2 <= |a| && v < 0x1_0000 ==> Le16(Put16(a, o, v), o) == v && OnlyAt(a, Put16(a, o, v), o, 2)
    ensures o + 4 <= |a| && v < TWO32 ==> Le32(Put32(a, o, v), o) == v && OnlyAt(a, Put32(a, o, v), o, 4)
  {
    hide Get16, Get32, Le16, Le32, Splice, Enc32;
    if o + 2 <= |a| && v < 0x1_0000 {
      GetIs(Put16(a, o, v), o);
      SpliceAt(a, o, [v % 256, v / 256]);
    }
    if o + 4 <= |a| && v < TWO32 {
      GetIs(Put32(a, o, v), o);
      SpliceAt(a, o, Enc32(v));
    }
  }
}
