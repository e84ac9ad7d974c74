/**
 SHA-256: the hash of FIPS 180-4 as a fold over padded blocks, the streaming form that is fed byte by
 byte, and password hashes built on it.
 */
module Sha256 {

  type Octet = bv8

  // ----- sections 4.1.2, 4.2.2 and 6.2.2 of FIPS 180-4 -----

  datatype Regs = Regs(a: bv32, b: bv32, c: bv32, d: bv32, e: bv32, f: bv32, g: bv32, h: bv32)

  function Rotr(x: bv32, n: bv32): bv32
    requires 0 < n < 32
  {
    (x >> n) | (x << (32 - n))
  }

  function Ch(x: bv32, y: bv32, z: bv32): bv32 {
    (x & y) ^ (!x & z)
  }

  function Maj(x: bv32, y: bv32, z: bv32): bv32 {
    (x & y) ^ (x & z) ^ (y & z)
  }

  function Ep0(x: bv32): bv32 {
    Rotr(x, 2) ^ Rotr(x, 13) ^ Rotr(x, 22)
  }

  function Ep1(x: bv32): bv32 {
    Rotr(x, 6) ^ Rotr(x, 11) ^ Rotr(x, 25)
  }

  function Sig0(x: bv32): bv32 {
    Rotr(x, 7) ^ Rotr(x, 18) ^ (x >> 3)
  }

  function Sig1(x: bv32): bv32 {
    Rotr(x, 17) ^ Rotr(x, 19) ^ (x >> 10)
  }

  /** The 64 constants, eight to a row. */
  function K(): (k: seq<seq<bv32>>)
    ensures |k| == 8 && forall i | 0 <= i < 8 :: |k[i]| == 8
  {
    [
      [0x428a2f98, 0x71374491, 0xb5c0fbcf, 0xe9b5dba5, 0x3956c25b, 0x59f111f1, 0x923f82a4, 0xab1c5ed5],
      [0xd807aa98, 0x12835b01, 0x243185be, 0x550c7dc3, 0x72be5d74, 0x80deb1fe, 0x9bdc06a7, 0xc19bf174],
      [0xe49b69c1, 0xefbe4786, 0x0fc19dc6, 0x240ca1cc, 0x2de92c6f, 0x4a7484aa, 0x5cb0a9dc, 0x76f988da],
      [0x983e5152, 0xa831c66d, 0xb00327c8, 0xbf597fc7, 0xc6e00bf3, 0xd5a79147, 0x06ca6351, 0x14292967],
      [0x27b70a85, 0x2e1b2138, 0x4d2c6dfc, 0x53380d13, 0x650a7354, 0x766a0abb, 0x81c2c92e, 0x92722c85],
      [0xa2bfe8a1, 0xa81a664b, 0xc24b8b70, 0xc76c51a3, 0xd192e819, 0xd6990624, 0xf40e3585, 0x106aa070],
      [0x19a4c116, 0x1e376c08, 0x2748774c, 0x34b0bcb5, 0x391c0cb3, 0x4ed8aa4a, 0x5b9cca4f, 0x682e6ff3],
      [0x748f82ee, 0x78a5636f, 0x84c87814, 0x8cc70208, 0x90befffa, 0xa4506ceb, 0xbef9a3f7, 0xc67178f2]
    ]
  }

  const H0: Regs := Regs(0x6a09e667, 0xbb67ae85, 0x3c6ef372, 0xa54ff53a, 0x510e527f, 0x9b05688c, 0x1f83d9ab, 0x5be0cd19)

  function Constant(t: nat): bv32
    requires t < 64
  {
    K()[t / 8][t % 8]
  }

  /** The big-endian word number i of a block. */
  function WordOf(block: seq<Octet>, i: nat): bv32
    requires |block| == 64 && i < 16
  {
    Join(block[4 * i], block[4 * i + 1], block[4 * i + 2], block[4 * i + 3])
  }

  function Join(b0: Octet, b1: Octet, b2: Octet, b3: Octet): bv32 {
    ((b0 as bv32) << 24) | ((b1 as bv32) << 16) | ((b2 as bv32) << 8) | (b3 as bv32)
  }

  /** The message schedule. */
  function W(block: seq<Octet>, t: nat): bv32
    requires |block| == 64 && t < 64
  {
    if t < 16 then WordOf(block, t)
    else Expand(W(block, t - 2), W(block, t - 7), W(block, t - 15), W(block, t - 16))
  }

  function Expand(w2: bv32, w7: bv32, w15: bv32, w16: bv32): bv32 {
    Sig1(w2) + w7 + Sig0(w15) + w16
  }

  lemma WFirst(block: seq<Octet>, t: nat)
    requires |block| == 64 && t < 16
    ensures W(block, t) == Join(block[4 * t], block[4 * t + 1], block[4 * t + 2], block[4 * t + 3])
  {
    hide Join;
  }

  lemma WNext(block: seq<Octet>, t: nat)
    requires |block| == 64 && 16 <= t < 64
    ensures W(block, t) == Expand(W(block, t - 2), W(block, t - 7), W(block, t - 15), W(block, t - 16))
  {
    hide Expand, WordOf;
  }

  function T1(e: bv32, f: bv32, g: bv32, h: bv32, k: bv32, w: bv32): bv32 {
    h + Ep1(e) + Ch(e, f, g) + k + w
  }

  function T2(a: bv32, b: bv32, c: bv32): bv32 {
    Ep0(a) + Maj(a, b, c)
  }

  function Plus(x: bv32, y: bv32): bv32 {
    x + y
  }

  function Round(v: Regs, k: bv32, w: bv32): Regs {
    var t1 := T1(v.e, v.f, v.g, v.h, k, w);
    Regs(Plus(t1, T2(v.a, v.b, v.c)), v.a, v.b, v.c, Plus(v.d, t1), v.e, v.f, v.g)
  }

  function Rounds(v: Regs, block: seq<Octet>, t: nat): Regs
    requires |block| == 64 && t <= 64
  {
    if t == 0 then v else Round(Rounds(v, block, t - 1), Constant(t - 1), W(block, t - 1))
  }

  lemma RoundsNone(v: Regs, block: seq<Octet>)
    requires |block| == 64
    ensures Rounds(v, block, 0) == v
  {
  }

  lemma RoundsNext(v: Regs, block: seq<Octet>, t: nat)
    requires |block| == 64 && t < 64
    ensures Rounds(v, block, t + 1) == Round(Rounds(v, block, t), Constant(t), W(block, t))
  {
    hide W, Round;
  }

  function AddRegs(x: Regs, y: Regs): Regs {
    Regs(x.a + y.a, x.b + y.b, x.c + y.c, x.d + y.d, x.e + y.e, x.f + y.f, x.g + y.g, x.h + y.h)
  }

  function Compress(s: Regs, block: seq<Octet>): Regs
    requires |block| == 64
  {
    AddRegs(s, Rounds(s, block, 64))
  }

  /** The blocks of a padded message, folded into the state. */
  function Blocks(s: Regs, bytes: seq<Octet>): Regs
    requires |bytes| % 64 == 0
    decreases |bytes|
  {
    if bytes == [] then s else Compress(Blocks(s, bytes[..|bytes| - 64]), bytes[|bytes| - 64..])
  }

  lemma BlocksNext(s: Regs, bytes: seq<Octet>, block: seq<Octet>)
    requires |bytes| % 64 == 0 && |block| == 64
    ensures Blocks(s, bytes + block) == Compress(Blocks(s, bytes), block)
  {
    hide Compress;
    assert (bytes + block)[..|bytes|] == bytes && (bytes + block)[|bytes|..] == block;
  }

  // ----- section 5.1.1: padding -----

  function Zeros(n: nat): (z: seq<Octet>)
    ensures |z| == n
    ensures forall k | 0 <= k < n :: z[k] == 0
  {
    seq<Octet>(n, _ => 0)
  }

  const TWO64: nat := 0x1_0000_0000_0000_0000

  /** bits >> (8 * n) */
  function Shifted(bits: nat, n: nat): nat {
    if n == 0 then bits else Shifted(bits, n - 1) / 256
  }

  function Low(x: nat): Octet {
    (x % 256) as bv8
  }

  /** Byte k of a 64-bit number, big-endian. */
  function LenByte(bits: nat, k: nat): Octet
    requires k < 8
  {
    Low(Shifted(bits, 7 - k))
  }

  /** A length in bits, as 64 bits big-endian. */
  function Len64(bits: nat): (r: seq<Octet>)
    ensures |r| == 8
  {
    seq<Octet>(8, k requires 0 <= k < 8 => LenByte(bits, k))
  }

  /** The number with these digits to base 256, the highest first. */
  function Number(d: seq<nat>): nat {
    if d == [] then 0 else Number(d[..|d| - 1]) * 256 + d[|d| - 1]
  }

  ghost predicate Digits(d: seq<nat>) {
    forall k | 0 <= k < |d| :: d[k] < 256
  }

  lemma LastDigit(d: seq<nat>)
    requires Digits(d) && d != []
    ensures Number(d) / 256 == Number(d[..|d| - 1]) && Number(d) % 256 == d[|d| - 1]
  {
  }

  lemma {:induction false} ShiftedNumber(d: seq<nat>, n: nat)
    requires Digits(d) && n <= |d|
    ensures Shifted(Number(d), n) == Number(d[..|d| - n])
  {
    if n == 0 {
      assert d[..|d|] == d;
    } else {
      ShiftedNumber(d, n - 1);
      var e := d[..|d| - (n - 1)];
      assert e[..|e| - 1] == d[..|d| - n];
      hide Number;
      LastDigit(e);
    }
  }

  /** Byte k of the length is digit k of the number, the highest first. */
  lemma LenDigits(d: seq<nat>, k: nat)
    requires |d| == 8 && Digits(d) && k < 8
    ensures Len64(Number(d))[k] == d[k] as bv8
  {
    hide Number, Shifted;
    ShiftedNumber(d, 7 - k);
    var e := d[..8 - (7 - k)];
    LastDigit(e);
  }

  lemma Len64Is(bits: nat, r: seq<Octet>)
    requires |r| == 8 && r[0] == LenByte(bits, 0) && r[1] == LenByte(bits, 1) && r[2] == LenByte(bits, 2) && r[3] == LenByte(bits, 3)
    requires r[4] == LenByte(bits, 4) && r[5] == LenByte(bits, 5) && r[6] == LenByte(bits, 6) && r[7] == LenByte(bits, 7)
    ensures r == Len64(bits)
  {
    hide LenByte;
  }

  /** The fewest zero bytes that leave room for exactly the length in the last block. */
  function Fill(n: nat): (z: nat)
    ensures (n + 1 + z) % 64 == 56 && z < 64
  {
    (119 - n % 64) % 64
  }

  function Pad(msg: seq<Octet>): (p: seq<Octet>)
    requires |msg| * 8 < TWO64
    ensures |p| % 64 == 0
  {
    msg + [0x80] + Zeros(Fill(|msg|)) + Len64(|msg| * 8)
  }

  function WordBytes(w: bv32): (r: seq<Octet>)
    ensures |r| == 4
  {
    [((w >> 24) & 0xff) as bv8, ((w >> 16) & 0xff) as bv8, ((w >> 8) & 0xff) as bv8, (w & 0xff) as bv8]
  }

  function StateBytes(s: Regs): (r: seq<Octet>)
    ensures |r| == 32
  {
    WordBytes(s.a) + WordBytes(s.b) + WordBytes(s.c) + WordBytes(s.d) + WordBytes(s.e) + WordBytes(s.f) + WordBytes(s.g) + WordBytes(s.h)
  }

  /** The hash of a whole message. */
  function Digest(msg: seq<Octet>): (d: seq<Octet>)
    requires |msg| * 8 < TWO64
    ensures |d| == 32
  {
    StateBytes(Blocks(H0, Pad(msg)))
  }

  // ----- the streaming form -----

  function Whole(n: nat): (q: nat)
    ensures q <= n < q + 64 && q % 64 == 0
  {
    n / 64 * 64
  }

  /** The state after the whole blocks of msg, and the tail that waits for more. */
  ghost predicate Fed(msg: seq<Octet>, tail: seq<Octet>, state: Regs, bitlen: nat) {
    && tail == msg[Whole(|msg|)..]
    && state == Blocks(H0, msg[..Whole(|msg|)])
    && bitlen == Whole(|msg|) * 8 % TWO64
  }

  lemma FedNone()
    ensures Fed([], [], H0, 0)
  {
    hide Blocks;
    var none: seq<Octet> := [];
    assert none[..0] == none;
    BlocksNone(H0);
  }

  lemma BlocksNone(s: Regs)
    ensures Blocks(s, []) == s
  {
    hide Compress;
  }

  lemma WholeNext(n: nat)
    ensures n - Whole(n) < 63 ==> Whole(n + 1) == Whole(n)
    ensures n - Whole(n) == 63 ==> Whole(n + 1) == n + 1 == Whole(n) + 64
  {
  }

  /** One more byte: the tail grows ... */
  lemma FedPartial(msg: seq<Octet>, tail: seq<Octet>, state: Regs, bitlen: nat, b: Octet)
    requires Fed(msg, tail, state, bitlen) && |tail| < 63
    ensures Fed(msg + [b], tail + [b], state, bitlen)
  {
    hide Blocks, Whole;
    WholeNext(|msg|);
    var q, next := Whole(|msg|), msg + [b];
    assert next[q..] == msg[q..] + [b] && next[..q] == msg[..q];
  }

  /** ... or it becomes a whole block. */
  lemma FedFull(msg: seq<Octet>, tail: seq<Octet>, state: Regs, bitlen: nat, b: Octet)
    requires Fed(msg, tail, state, bitlen) && |tail| == 63
    ensures Fed(msg + [b], [], Compress(state, tail + [b]), (bitlen + 512) % TWO64)
  {
    hide Blocks, Compress, Whole;
    WholeNext(|msg|);
    var q := Whole(|msg|);
    BitStep(q);
    FullSplit(msg, b, q);
    BlocksNext(H0, msg[..q], tail + [b]);
  }

  lemma BitStep(q: nat)
    ensures (q * 8 % TWO64 + 512) % TWO64 == (q + 64) * 8 % TWO64
  {
  }

  lemma FullSplit(msg: seq<Octet>, b: Octet, q: nat)
    requires q <= |msg|
    ensures var next := msg + [b]; next == msg[..q] + (msg[q..] + [b]) && next[..|next|] == next && next[|next|..] == []
  {
  }

  class Context {
    const data: array<Octet>
    var datalen: nat
    var bitlen: nat
    var state: Regs
    /** All bytes fed so far. */
    ghost var msg: seq<Octet>

    ghost predicate Valid()
      reads this, data
    {
      data.Length == 64 && datalen < 64 && Fed(msg, data[..datalen], state, bitlen)
    }

    constructor ()
      ensures Valid() && msg == [] && fresh(data)
    {
      hide Fed;
      data := new Octet[64](_ => 0);
      datalen, bitlen, state, msg := 0, 0, H0, [];
      FedNone();
      new;
      assert data[..datalen] == [];
    }

    /** Compress the 64 bytes in the buffer into the state. */
    method Transform()
      requires data.Length == 64
      modifies this`state
      ensures state == Compress(old(state), data[..])
    {
      hide W, T1, T2, Plus, Rounds, AddRegs, Constant;
      ghost var block := data[..];
      ghost var start := state;
      RoundsNone(start, block);
      var m := Schedule(block);
      var a, b, c, d := state.a, state.b, state.c, state.d;
      var e, f, g, h := state.e, state.f, state.g, state.h;
      var i := 0;
      while i < 64
        invariant i <= 64 && Regs(a, b, c, d, e, f, g, h) == Rounds(start, block, i)
        invariant state == start && forall t: nat | t < 64 :: m[t] == W(block, t)
      {
        RoundsNext(start, block, i);
        var t1 := T1(e, f, g, h, Constant(i), m[i]);
        var t2 := T2(a, b, c);
        h := g;
        g := f;
        f := e;
        e := Plus(d, t1);
        d := c;
        c := b;
        b := a;
        a := Plus(t1, t2);
        i := i + 1;
      }
      state := AddRegs(state, Regs(a, b, c, d, e, f, g, h));
      assert data[..] == block;
    }

    method Schedule(ghost block: seq<Octet>) returns (m: array<bv32>)
      requires data.Length == 64 && block == data[..]
      ensures m.Length == 64 && forall t: nat | t < 64 :: m[t] == W(block, t)
    {
      hide Expand, Join, W;
      m := new bv32[64](_ => 0);
      var i, j := 0, 0;
      while i < 16
        invariant i <= 16 && j == 4 * i && forall t: nat | t < i :: m[t] == W(block, t)
      {
        WFirst(block, i);
        m[i] := Join(data[j], data[j + 1], data[j + 2], data[j + 3]);
        i, j := i + 1, j + 4;
      }
      while i < 64
        invariant 16 <= i <= 64 && forall t: nat | t < i :: m[t] == W(block, t)
      {
        WNext(block, i);
        m[i] := Expand(m[i - 2], m[i - 7], m[i - 15], m[i - 16]);
        i := i + 1;
      }
    }

    /** Feed bytes; how they are split over calls makes no difference to what was fed. */
    method Update(bytes: seq<Octet>)
      requires Valid()
      modifies this, data
      ensures Valid() && msg == old(msg) + bytes
    {
      hide Fed;
      var i := 0;
      while i < |bytes|
        invariant i <= |bytes| && Valid() && msg == old(msg) + bytes[..i]
      {
        FeedOne(bytes[i]);
        assert bytes[..i + 1] == bytes[..i] + [bytes[i]];
        i := i + 1;
      }
      assert bytes[..i] == bytes;
    }

    method Store(b: Octet)
      requires data.Length == 64 && datalen < 64
      modifies this`datalen, data
      ensures datalen == old(datalen) + 1 && data[..datalen] == old(data[..datalen]) + [b]
      ensures datalen == 64 ==> data[..] == data[..datalen]
    {
      data[datalen] := b;
      datalen := datalen + 1;
    }

    method FeedOne(b: Octet)
      requires Valid()
      modifies this, data
      ensures Valid() && msg == old(msg) + [b]
    {
      hide Fed, Compress;
      ghost var tail := data[..datalen];
      if datalen < 63 {
        FedPartial(msg, tail, state, bitlen, b);
      } else {
        FedFull(msg, tail, state, bitlen, b);
      }
      Store(b);
      if datalen == 64 {
        Transform();
        bitlen := (bitlen + 512) % TWO64;
        datalen := 0;
        assert data[..datalen] == [];
      }
      msg := msg + [b];
    }

    /** Pad, compress the last one or two blocks, and give out the state. */
    method Final() returns (hash: seq<Octet>)
      requires Valid() && |msg| * 8 < TWO64
      modifies this, data
      ensures msg == old(msg) && hash == Digest(msg)
    {
      hide Blocks, Compress, Len64, StateBytes, Pad, Whole, Fed, Fill;
      ghost var q, tail := Whole(|msg|), data[..datalen];
      FedParts(msg, tail, state, bitlen);
      var i := datalen;
      ghost var n := datalen;
      data[i] := 0x80;
      i := i + 1;
      ghost var first := [];
      if datalen < 56 {
        ZeroTo(i, 56);
        assert data[..56] == tail + [0x80] + Zeros(55 - n);
      } else {
        ZeroTo(i, 64);
        first := data[..];
        assert first == tail + [0x80] + Zeros(63 - n);
        Transform();
        ZeroTo(0, 56);
        assert data[..56] == Zeros(56);
      }
      bitlen := (bitlen + datalen * 8) % TWO64;
      PutLength();
      assert data[..] == data[..56] + data[56..];
      PadBlocks(msg, q, tail, first, data[..]);
      Transform();
      hash := StateBytes(state);
    }

    method ZeroTo(from: nat, to: nat)
      requires from <= to <= data.Length
      modifies data
      ensures forall k | 0 <= k < data.Length :: data[k] == if from <= k < to then 0 else old(data[k])
    {
      var i := from;
      while i < to
        invariant from <= i <= to
        invariant forall k | 0 <= k < data.Length :: data[k] == if from <= k < i then 0 else old(data[k])
      {
        data[i] := 0;
        i := i + 1;
      }
    }

    method PutLength()
      requires data.Length == 64 && bitlen < TWO64
      modifies data
      ensures data[56..] == Len64(bitlen) && data[..56] == old(data[..56])
    {
      hide LenByte, Len64;
      data[63] := LenByte(bitlen, 7);
      data[62] := LenByte(bitlen, 6);
      data[61] := LenByte(bitlen, 5);
      data[60] := LenByte(bitlen, 4);
      data[59] := LenByte(bitlen, 3);
      data[58] := LenByte(bitlen, 2);
      data[57] := LenByte(bitlen, 1);
      data[56] := LenByte(bitlen, 0);
      Len64Is(bitlen, data[56..]);
    }
  }

  lemma FedParts(msg: seq<Octet>, tail: seq<Octet>, state: Regs, bitlen: nat)
    requires Fed(msg, tail, state, bitlen) && |msg| * 8 < TWO64
    ensures tail == msg[Whole(|msg|)..] && state == Blocks(H0, msg[..Whole(|msg|)])
    ensures (bitlen + |tail| * 8) % TWO64 == |msg| * 8
  {
    hide Blocks;
  }

  lemma FillIs(n: nat, t: nat)
    requires t < 64 && (n - t) % 64 == 0
    ensures t < 56 ==> Fill(n) == 55 - t
    ensures t >= 56 ==> Fill(n) == (63 - t) + 56
  {
  }

  /** The block or the two blocks behind the whole ones are the padding. */
  lemma PadBlocks(msg: seq<Octet>, q: nat, tail: seq<Octet>, first: seq<Octet>, last: seq<Octet>)
    requires |msg| * 8 < TWO64 && q == Whole(|msg|) && tail == msg[q..] && |last| == 64
    requires |tail| < 56 ==> last == tail + [0x80] + Zeros(55 - |tail|) + Len64(|msg| * 8)
    requires |tail| >= 56 ==> first == tail + [0x80] + Zeros(63 - |tail|) && last == Zeros(56) + Len64(|msg| * 8)
    ensures |tail| < 56 ==> Blocks(H0, Pad(msg)) == Compress(Blocks(H0, msg[..q]), last)
    ensures |tail| >= 56 ==> |first| == 64 && Blocks(H0, Pad(msg)) == Compress(Compress(Blocks(H0, msg[..q]), first), last)
  {
    hide Blocks, Compress, Len64, Whole, Fill;
    FillIs(|msg|, |tail|);
    if |tail| < 56 {
      assert Pad(msg) == msg[..q] + last;
      BlocksNext(H0, msg[..q], last);
    } else {
      ZerosSplit(63 - |tail|, 56);
      assert Pad(msg) == msg[..q] + first + last;
      BlocksNext(H0, msg[..q], first);
      BlocksNext(H0, msg[..q] + first, last);
    }
  }

  lemma ZerosSplit(a: nat, b: nat)
    ensures Zeros(a + b) == Zeros(a) + Zeros(b)
  {
  }

  function Flatten(chunks: seq<seq<Octet>>): seq<Octet> {
    if chunks == [] then [] else Flatten(chunks[..|chunks| - 1]) + chunks[|chunks| - 1]
  }

  /** However a message is cut into pieces, feeding the pieces gives the hash of the whole. */
  method HashChunks(chunks: seq<seq<Octet>>) returns (hash: seq<Octet>)
    requires |Flatten(chunks)| * 8 < TWO64
    ensures |Flatten(chunks)| * 8 < TWO64 && hash == Digest(Flatten(chunks))
  {
    hide Digest, Fed;
    var ctx := new Context();
    var i := 0;
    while i < |chunks|
      invariant i <= |chunks| && ctx.Valid() && ctx.msg == Flatten(chunks[..i]) && fresh(ctx) && fresh(ctx.data)
    {
      ctx.Update(chunks[i]);
      assert chunks[..i + 1][..i] == chunks[..i];
      i := i + 1;
    }
    assert chunks[..i] == chunks;
    hash := ctx.Final();
  }

  // ----- password hashes -----

  const DOLLAR: Octet := 36

  function HexDigit(n: bv8): (c: Octet)
    ensures c != DOLLAR && c != 0
  {
    if n < 10 then 48 + n else if n < 16 then 87 + n else 102
  }

  function Hex(bytes: seq<Octet>): (s: seq<Octet>)
    ensures |s| == 2 * |bytes| && forall k | 0 <= k < |s| :: s[k] != DOLLAR
  {
    if bytes == [] then []
    else
      var b := bytes[|bytes| - 1];
      Hex(bytes[..|bytes| - 1]) + [HexDigit((b >> 4) & 0x0f), HexDigit(b & 0x0f)]
  }

  /** Four bits read from a hexadecimal digit: '0' to '9', then 'a' to 'f'. */
  function HexValue(c: Octet): bv8 {
    if 48 <= c <= 57 then c - 48 else if 97 <= c <= 102 then c - 97 + 10 else 0
  }

  /** The byte with these two digits, the high half first. */
  function PairValue(high: Octet, low: Octet): Octet {
    HexValue(high) * 16 + HexValue(low)
  }

  /** Bytes read from pairs of hexadecimal digits. */
  function UnHex(s: seq<Octet>): (b: seq<Octet>)
    ensures |b| == |s| / 2
  {
    if |s| < 2 then [] else UnHex(s[..|s| - 2]) + [PairValue(s[|s| - 2], s[|s| - 1])]
  }

  lemma HexDigitIs(n: bv8)
    requires n < 16
    ensures HexValue(HexDigit(n)) == n
  {
  }

  lemma HalvesJoin(b: bv8)
    ensures PairValue(HexDigit((b >> 4) & 0x0f), HexDigit(b & 0x0f)) == b
  {
    HexDigitIs((b >> 4) & 0x0f);
    HexDigitIs(b & 0x0f);
  }

  lemma HexNext(a: seq<Octet>, x: Octet)
    ensures Hex(a + [x]) == Hex(a) + [HexDigit((x >> 4) & 0x0f), HexDigit(x & 0x0f)]
  {
    hide HexDigit;
    assert (a + [x])[..|a|] == a;
  }

  lemma UnHexNext(s: seq<Octet>, c: Octet, d: Octet)
    requires |s| % 2 == 0
    ensures UnHex(s + [c, d]) == UnHex(s) + [PairValue(c, d)]
  {
    hide PairValue;
    assert (s + [c, d])[..|s|] == s;
  }

  /** The digits written are those that read back as the bytes ... */
  lemma {:induction false} UnHexHex(b: seq<Octet>)
    ensures UnHex(Hex(b)) == b
  {
    hide HexDigit, PairValue, Hex, UnHex;
    if b == [] {
      HexNone();
    } else {
      var a, x := b[..|b| - 1], b[|b| - 1];
      UnHexHex(a);
      HalvesJoin(x);
      assert b == a + [x];
      HexNext(a, x);
      UnHexNext(Hex(a), HexDigit((x >> 4) & 0x0f), HexDigit(x & 0x0f));
    }
  }

  lemma HexNone()
    ensures Hex([]) == [] && UnHex([]) == []
  {
  }

  /** ... so different bytes are written differently. */
  lemma HexInjective(a: seq<Octet>, b: seq<Octet>)
    ensures Hex(a) == Hex(b) <==> a == b
  {
    hide Hex, UnHex;
    UnHexHex(a);
    UnHexHex(b);
  }

  /** salt, '$', and the digest of salt and password in hexadecimal. */
  function Stored(password: seq<Octet>, salt: seq<Octet>): (s: seq<Octet>)
    requires (|salt| + |password|) * 8 < TWO64
    ensures |s| == |salt| + 65
  {
    salt + [DOLLAR] + Hex(Digest(salt + password))
  }

  /** Position of the first '$', or the length. */
  function Sep(s: seq<Octet>): (k: nat)
    ensures k <= |s| && (k < |s| ==> s[k] == DOLLAR) && forall j | 0 <= j < k :: s[j] != DOLLAR
  {
    if s == [] || s[0] == DOLLAR then 0
    else
      var k := Sep(s[1..]);
      assert forall j | 0 < j < k + 1 :: s[j] == s[1..][j - 1];
      k + 1
  }

  function SaltOf(stored: seq<Octet>): (s: seq<Octet>)
    ensures |s| <= 31
  {
    stored[..if Sep(stored) > 31 then 31 else Sep(stored)]
  }

  predicate Verifies(password: seq<Octet>, stored: seq<Octet>)
    requires (|password| + 31) * 8 < TWO64
  {
    Sep(stored) < |stored| && Stored(password, SaltOf(stored)) == stored
  }

  /** A password verifies against its own hash exactly for salts without '$' of at most 31 characters. */
  lemma VerifiesOwnIff(password: seq<Octet>, salt: seq<Octet>)
    requires (|password| + |salt| + 31) * 8 < TWO64
    ensures Verifies(password, Stored(password, salt)) <==> Sep(salt) == |salt| <= 31
  {
    hide Digest, Hex, HexDigit, Stored, Sep;
    var stored := Stored(password, salt);
    StoredSep(password, salt);
    SepIn(salt);
    if Sep(salt) == |salt| {
      if |salt| <= 31 {
        assert stored[..|salt|] == salt;
      } else {
        StoredSep(password, SaltOf(stored));
        assert stored[31] == salt[31] != DOLLAR;
      }
    }
  }

  /**
   Against the stored hash of a password p, another password q is accepted exactly when the salted
   digests of p and q are the same.
   */
  lemma VerifiesIff(p: seq<Octet>, q: seq<Octet>, salt: seq<Octet>)
    requires (|p| + |salt| + 31) * 8 < TWO64 && (|q| + |salt| + 31) * 8 < TWO64 && Sep(salt) == |salt| <= 31
    ensures Verifies(q, Stored(p, salt)) <==> Digest(salt + q) == Digest(salt + p)
  {
    hide Digest, Hex, HexDigit, Sep, Stored;
    StoredSep(p, salt);
    assert SaltOf(Stored(p, salt)) == salt;
    StoredParts(p, salt);
    StoredParts(q, salt);
    HexInjective(Digest(salt + p), Digest(salt + q));
  }

  /** What is stored: the salt, then '$', then the hexadecimal digest of salt and password. */
  lemma StoredParts(password: seq<Octet>, salt: seq<Octet>)
    requires (|salt| + |password|) * 8 < TWO64
    ensures Stored(password, salt)[..|salt|] == salt && Stored(password, salt)[|salt|] == 36
    ensures Stored(password, salt)[|salt| + 1..] == Hex(Digest(salt + password))
    ensures forall t: seq<Octet> | |t| == |salt| + 65 && t[..|salt|] == salt && t[|salt|] == 36 && t[|salt| + 1..] == Hex(Digest(salt + password)) :: t == Stored(password, salt)
  {
    hide Digest, Hex, HexDigit;
    var hex := Hex(Digest(salt + password));
    forall t: seq<Octet> | |t| == |salt| + 65 && t[..|salt|] == salt && t[|salt|] == 36 && t[|salt| + 1..] == hex ensures t == salt + [36] + hex {
      assert t == t[..|salt|] + [t[|salt|]] + t[|salt| + 1..];
    }
  }

  lemma SepIn(s: seq<Octet>)
    ensures Sep(s) <= |s| && forall j | 0 <= j < Sep(s) :: s[j] != DOLLAR
  {
  }

  /** The first '$' of a stored hash is that of the salt, or the separator behind it. */
  lemma StoredSep(password: seq<Octet>, salt: seq<Octet>)
    requires (|salt| + |password|) * 8 < TWO64
    ensures var s := Stored(password, salt); Sep(s) == Sep(salt) && s[|salt|] == DOLLAR && s[..|salt|] == salt
  {
    hide Digest, Hex, Sep;
    HexSep(salt, Hex(Digest(salt + password)));
  }

  lemma HexSep(salt: seq<Octet>, hex: seq<Octet>)
    ensures var s := salt + [DOLLAR] + hex; Sep(s) == Sep(salt) && s[|salt|] == DOLLAR && s[..|salt|] == salt
  {
    hide Sep;
    SepPrefix(salt, [DOLLAR] + hex);
    assert salt + ([DOLLAR] + hex) == salt + [DOLLAR] + hex;
  }

  lemma {:induction false} SepPrefix(a: seq<Octet>, b: seq<Octet>)
    requires b != [] && b[0] == DOLLAR
    ensures Sep(a + b) == Sep(a)
  {
    if a == [] {
      assert a + b == b;
    } else if a[0] != DOLLAR {
      assert (a + b)[1..] == a[1..] + b;
      SepPrefix(a[1..], b);
    }
  }

  method HashPassword(password: seq<Octet>, salt: seq<Octet>) returns (output: seq<Octet>)
    requires (|salt| + |password|) * 8 < TWO64
    ensures output == Stored(password, salt)
  {
    hide Digest, Hex, HexDigit, Fed;
    var ctx := new Context();
    ctx.Update(salt);
    ctx.Update(password);
    assert [] + salt + password == salt + password;
    var hash := ctx.Final();
    var hex := BytesToHex(hash);
    output := salt + [DOLLAR] + hex;
  }

  method BytesToHex(bytes: seq<Octet>) returns (hex: seq<Octet>)
    ensures hex == Hex(bytes)
  {
    hide HexDigit;
    hex := [];
    var i := 0;
    while i < |bytes|
      invariant i <= |bytes| && hex == Hex(bytes[..i])
    {
      assert bytes[..i + 1][..i] == bytes[..i];
      hex := hex + [HexDigit((bytes[i] >> 4) & 0x0f), HexDigit(bytes[i] & 0x0f)];
      i := i + 1;
    }
    assert bytes[..i] == bytes;
  }

  method VerifyPassword(password: seq<Octet>, stored: seq<Octet>) returns (same: bool)
    requires (|password| + 31) * 8 < TWO64
    ensures same == Verifies(password, stored)
  {
    hide Digest, Hex, Stored;
    var sep := 0;
    while sep < |stored| && stored[sep] != DOLLAR
      invariant sep <= |stored| && Sep(stored) == sep + Sep(stored[sep..])
    {
      assert stored[sep..][1..] == stored[sep + 1..];
      sep := sep + 1;
    }
    if sep == |stored| {
      return false;
    }
    var len := sep;
    if len > 31 {
      len := 31;
    }
    var computed := HashPassword(password, stored[..len]);
    same := computed == stored;
  }
}
