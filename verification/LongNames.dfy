/**
 FAT32 long names: building the reversed entries of 13 UTF-16 units each, collecting them while a
 directory is scanned, and finding a file by its long or short name.
 */
module LongNames {
  import opened Bits
  import opened Bytes

  type Name = seq<Byte>

  datatype Lfn = Lfn(order: nat, name1: seq<nat>, name2: seq<nat>, name3: seq<nat>, checksum: nat)

  /** A directory slot: the end mark, a deleted slot, a long-name part, or a short entry. */
  datatype Slot = End | Deleted | Long(l: Lfn) | Short(short: seq<Byte>)

  const PER: nat := 13
  const LIMIT: nat := 247

  predicate NulFree(s: Name) {
    forall k | 0 <= k < |s| :: s[k] != 0
  }

  // ----- building -----

  /** A signed char widened to an unsigned short. */
  function Wide(b: Byte): nat {
    if b < 128 then b else 0xFF00 + b
  }

  /** Unit p: the character, then one terminator, then padding. */
  function Unit(name: Name, p: nat): nat {
    if p < |name| then Wide(name[p]) else if p == |name| then 0 else 0xFFFF
  }

  function Units(name: Name, p: nat, n: nat): (u: seq<nat>)
    ensures |u| == n
    ensures forall k | 0 <= k < n :: u[k] == Unit(name, p + k)
  {
    seq<nat>(n, k requires k >= 0 => Unit(name, p + k))
  }

  function Count(name: Name): nat {
    (|name| + 12) / 13
  }

  /** Part i of the name; the last part carries the 0x40 mark. */
  function Part(name: Name, i: nat, checksum: nat): Lfn {
    Lfn(i + 1 + (if i == Count(name) - 1 then 0x40 else 0), Units(name, i * PER, 5), Units(name, i * PER + 5, 6), Units(name, i * PER + 11, 2), checksum)
  }

  /** The first m slots written: the parts in reverse order. */
  function Parts(name: Name, checksum: nat, m: nat): (s: seq<Slot>)
    requires m <= Count(name)
    ensures |s| == m
  {
    if m == 0 then [] else Parts(name, checksum, m - 1) + [Long(Part(name, Count(name) - m, checksum))]
  }

  function Widened(name: Name): (u: seq<nat>)
    ensures |u| == |name|
  {
    seq(|name|, k requires 0 <= k < |name| => Wide(name[k]))
  }

  /** What follows the name: nothing if it fills its last part, else one zero and all ones to the end of that part. */
  function Tail(n: nat): (u: seq<nat>) {
    if n % 13 == 0 then [] else [0] + seq(12 - n % 13, _ => 0xFFFF)
  }

  /** The parts side by side are the name and its tail. */
  lemma PartLayout(name: Name, i: nat, checksum: nat)
    requires i < Count(name)
    ensures |Widened(name) + Tail(|name|)| == 13 * Count(name)
    ensures var l := Part(name, i, checksum); l.name1 + l.name2 + l.name3 == (Widened(name) + Tail(|name|))[13 * i..13 * i + 13]
  {
    TailLen(|name|);
    var l, all := Part(name, i, checksum), Widened(name) + Tail(|name|);
    forall k: nat | k < 13 ensures (l.name1 + l.name2 + l.name3)[k] == all[13 * i + k] {
      TailUnit(name, 13 * i + k);
    }
  }

  lemma TailLen(n: nat)
    ensures n + |Tail(n)| == 13 * ((n + 12) / 13)
  {
  }

  lemma TailUnit(name: Name, p: nat)
    requires p < |name| + |Tail(|name|)|
    ensures (Widened(name) + Tail(|name|))[p] == Unit(name, p)
  {
  }

  // ----- collecting -----

  /** The scanner's state: the name buffer, whether parts are being collected, and their checksum. */
  datatype Scan = Scan(buf: seq<Byte>, active: bool, expected: nat)

  predicate ScanOk(s: Scan) {
    |s.buf| == 256
  }

  function Low(u: nat): Byte {
    u % 256
  }

  function Lows(u: seq<nat>): (r: seq<Byte>)
    ensures |r| == |u|
    ensures forall k | 0 <= k < |u| :: r[k] == Low(u[k])
  {
    seq<Byte>(|u|, k requires 0 <= k < |u| => Low(u[k]))
  }

  predicate LfnOk(l: Lfn) {
    |l.name1| == 5 && |l.name2| == 6 && |l.name3| == 2
  }

  function Zeros(n: nat): (z: seq<Byte>)
    ensures |z| == n
    ensures forall k | 0 <= k < n :: z[k] == 0
  {
    seq<Byte>(n, _ => 0)
  }

  function Collect(s: Scan, l: Lfn): (r: Scan)
    requires ScanOk(s) && LfnOk(l)
    ensures ScanOk(r)
  {
    var t := if l.order / 0x40 % 2 == 1 then Scan(Zeros(256), true, l.checksum) else s;
    var offset := (l.order % 0x40 - 1) * 13;
    if t.active && l.checksum == t.expected && 0 <= offset < 242 then
      t.(buf := Splice(t.buf, offset, Lows(l.name1 + l.name2 + l.name3)))
    else t
  }

  predicate AllParts(slots: seq<Slot>) {
    forall k | 0 <= k < |slots| :: slots[k].Long? && LfnOk(slots[k].l)
  }

  function CollectAll(s: Scan, slots: seq<Slot>): (r: Scan)
    requires ScanOk(s) && AllParts(slots)
    ensures ScanOk(r)
  {
    if slots == [] then s else Collect(CollectAll(s, slots[..|slots| - 1]), slots[|slots| - 1].l)
  }

  /** The C string at position from of the buffer. */
  function CStr(buf: seq<Byte>, from: nat): (r: Name)
    requires from <= |buf|
    ensures from + |r| <= |buf| && NulFree(r)
    decreases |buf| - from
  {
    if from == |buf| || buf[from] == 0 then [] else [buf[from]] + CStr(buf, from + 1)
  }

  /** What the buffer holds at p once the parts from number `done` on have been collected. */
  function Expected(name: Name, done: nat, p: nat): Byte {
    if p < LIMIT && done * PER <= p < Count(name) * PER then Low(Unit(name, p)) else 0
  }

  lemma {:induction false} PartsLong(name: Name, checksum: nat, m: nat)
    requires m <= Count(name)
    ensures AllParts(Parts(name, checksum, m))
  {
    hide Units;
    if m > 0 {
      PartsLong(name, checksum, m - 1);
    }
  }

  lemma PartOrder(name: Name, i: nat, checksum: nat)
    requires i < Count(name) && |name| <= 255
    ensures Part(name, i, checksum).order / 0x40 % 2 == (if i == Count(name) - 1 then 1 else 0)
    ensures Part(name, i, checksum).order % 0x40 == i + 1 <= 20
  {
  }

  /** The 13 bytes that part i contributes. */
  lemma PartBytes(name: Name, i: nat, checksum: nat, k: nat)
    requires k < PER
    ensures var l := Part(name, i, checksum); LfnOk(l) && |l.name1 + l.name2 + l.name3| == PER && Lows(l.name1 + l.name2 + l.name3)[k] == Low(Unit(name, i * PER + k))
  {
    hide Unit;
    var l := Part(name, i, checksum);
    assert (l.name1 + l.name2 + l.name3)[k] == Unit(name, i * PER + k);
  }

  /** Collecting part i on top of the parts behind it. */
  lemma CollectPart(name: Name, i: nat, checksum: nat, s: Scan)
    requires ScanOk(s) && |name| <= 255 && i < Count(name)
    requires i + 1 < Count(name) ==> s.active && s.expected == checksum && forall p | 0 <= p < 256 :: s.buf[p] == Expected(name, i + 1, p)
    ensures LfnOk(Part(name, i, checksum))
    ensures var r := Collect(s, Part(name, i, checksum)); r.active && r.expected == checksum && forall p | 0 <= p < 256 :: r.buf[p] == Expected(name, i, p)
  {
    hide Unit, Low, Splice, Units, Lows;
    var l := Part(name, i, checksum);
    PartOrder(name, i, checksum);
    PartBytes(name, i, checksum, 0);
    var t := if i == Count(name) - 1 then Scan(Zeros(256), true, checksum) else s;
    var r := Collect(s, l);
    var d := Lows(l.name1 + l.name2 + l.name3);
    if i * 13 < 242 {
      assert i <= 18;
      SpliceAt(t.buf, i * 13, d);
      forall p | 0 <= p < 256 ensures r.buf[p] == Expected(name, i, p) {
        if i * 13 <= p < i * 13 + 13 {
          PartBytes(name, i, checksum, p - i * 13);
        }
      }
    } else {
      assert i >= 19;
    }
  }

  /** Collecting all parts, whatever was in the buffer before. */
  lemma {:induction false} CollectParts(name: Name, checksum: nat, m: nat, s: Scan)
    requires ScanOk(s) && 0 < m <= Count(name) && |name| <= 255
    ensures AllParts(Parts(name, checksum, m))
    ensures var r := CollectAll(s, Parts(name, checksum, m));
      r.active && r.expected == checksum && forall p | 0 <= p < 256 :: r.buf[p] == Expected(name, Count(name) - m, p)
  {
    hide Collect, Part, Expected, Units;
    PartsLong(name, checksum, m);
    var ps := Parts(name, checksum, m);
    var i := Count(name) - m;
    assert ps[..m - 1] == Parts(name, checksum, m - 1);
    if m > 1 {
      CollectParts(name, checksum, m - 1, s);
    } else {
      assert ps[..0] == [];
    }
    PartsLong(name, checksum, m - 1);
    CollectPart(name, i, checksum, CollectAll(s, ps[..m - 1]));
  }

  lemma {:induction false} CStrIs(buf: seq<Byte>, from: nat, name: Name)
    requires from + |name| <= |buf| && NulFree(name) && buf[from..from + |name|] == name
    requires from + |name| < |buf| ==> buf[from + |name|] == 0
    ensures CStr(buf, from) == name
    decreases |name|
  {
    if name != [] {
      assert buf[from] == buf[from..from + |name|][0] == name[0];
      assert buf[from + 1..from + 1 + |name[1..]|] == name[1..] by {
        assert buf[from..from + |name|][1..] == buf[from + 1..from + |name|];
      }
      CStrIs(buf, from + 1, name[1..]);
    }
  }

  function DecodedName(s: Scan): Name
    requires ScanOk(s)
  {
    CStr(s.buf, 0)
  }

  /** The parts of a name decode to its first 247 characters ... */
  lemma DecodeIs(name: Name, checksum: nat, s: Scan)
    requires ScanOk(s) && 0 < |name| <= 255 && NulFree(name)
    ensures AllParts(Parts(name, checksum, Count(name)))
    ensures var r := CollectAll(s, Parts(name, checksum, Count(name)));
      r.active && r.expected == checksum && DecodedName(r) == name[..if |name| < LIMIT then |name| else LIMIT]
  {
    hide Collect, Part, Units, CollectAll, Parts, CStr;
    CollectParts(name, checksum, Count(name), s);
    var r := CollectAll(s, Parts(name, checksum, Count(name)));
    var n := if |name| < LIMIT then |name| else LIMIT;
    forall p | 0 <= p < n ensures r.buf[p] == name[p] {
      LowWide(name[p]);
    }
    assert r.buf[0..0 + n] == name[..n];
    CStrIs(r.buf, 0, name[..n]);
  }

  lemma LowWide(b: Byte)
    ensures Low(Wide(b)) == b
  {
  }

  /** ... so a name comes back exactly when it has at most 247 characters. */
  lemma RoundTripIff(name: Name, checksum: nat, s: Scan)
    requires ScanOk(s) && 0 < |name| <= 255 && NulFree(name)
    ensures AllParts(Parts(name, checksum, Count(name)))
    ensures DecodedName(CollectAll(s, Parts(name, checksum, Count(name)))) == name <==> |name| <= 247
  {
    hide CollectAll, Parts, DecodedName;
    DecodeIs(name, checksum, s);
  }

  // ----- finding a file in a directory -----

  /** Rotate right and add, on 8 bits. */
  function SumStep(sum: Byte, b: Byte): Byte {
    ((if sum % 2 == 1 then 0x80 else 0) + sum / 2 + b) % 256
  }

  function Checksum(short: seq<Byte>): (c: Byte) {
    if short == [] then 0 else SumStep(Checksum(short[..|short| - 1]), short[|short| - 1])
  }

  /** The sum turned right by one bit, then the byte added on 8 bits. */
  lemma SumStepBits(sum: Byte, b: Byte, i: nat)
    requires i < 8
    ensures BitOf(SumStep(sum, 0), i) <==> BitOf(sum, (i + 1) % 8)
    ensures SumStep(sum, b) == (SumStep(sum, 0) + b) % 256
  {
    hide BitOf;
    BitsNext(sum, i);
    BitsTop(sum);
    PowSeven();
    if sum % 2 == 1 {
      TopBit(sum / 2, 7, i);
    }
  }

  lemma BitsNext(w: nat, i: nat)
    ensures BitOf(w / 2, i) == BitOf(w, i + 1) && BitOf(w, 0) == (w % 2 == 1)
  {
  }

  lemma BitsTop(w: Byte)
    ensures !BitOf(w / 2, 7)
  {
    PowSeven();
    BitsBelow(w / 2, 7);
  }

  lemma PowSeven()
    ensures Pow2(7) == 128
  {
    assert Pow2(3) == 8;
  }

  lemma {:induction false} TopBit(w: nat, n: nat, i: nat)
    requires w < Pow2(n)
    ensures BitOf(Pow2(n) + w, i) <==> i == n || BitOf(w, i)
  {
    if n > 0 && i > 0 {
      TopBit(w / 2, n - 1, i - 1);
      assert (Pow2(n) + w) / 2 == Pow2(n - 1) + w / 2;
    } else if n == 0 && i > 0 {
      ZeroBits(i - 1);
    }
  }

  /** The checksum of the short name "README  TXT". */
  lemma ReadmeSum()
    ensures Checksum([82, 69, 65, 68, 77, 69] + [32, 32, 84, 88, 84]) == 115
  {
    hide Checksum, SumStep;
    SixSum();
    FiveSum([82, 69, 65, 68, 77, 69]);
  }

  lemma SixSum()
    ensures Checksum([82, 69, 65, 68, 77, 69]) == 11
  {
    hide Checksum, SumStep;
    SixSteps();
    SumNone();
    var a := [82];
    var b := a + [69];
    var c := b + [65];
    var d := c + [68];
    var e := d + [77];
    assert [] + [82] == a;
    SumMore([], 82, 0);
    SumMore(a, 69, 82);
    SumMore(b, 65, 110);
    SumMore(c, 68, 120);
    SumMore(d, 77, 128);
    SumMore(e, 69, 141);
    assert e + [69] == [82, 69, 65, 68, 77, 69];
  }

  lemma SixSteps()
    ensures SumStep(0, 82) == 82 && SumStep(82, 69) == 110 && SumStep(110, 65) == 120
    ensures SumStep(120, 68) == 128 && SumStep(128, 77) == 141 && SumStep(141, 69) == 11
  {
  }

  lemma FiveSum(s: seq<Byte>)
    requires Checksum(s) == 11
    ensures Checksum(s + [32, 32, 84, 88, 84]) == 115
  {
    hide Checksum, SumStep;
    FiveSteps();
    var a := s + [32];
    var b := a + [32];
    var c := b + [84];
    var d := c + [88];
    SumMore(s, 32, 11);
    SumMore(a, 32, 165);
    SumMore(b, 84, 242);
    SumMore(c, 88, 205);
    SumMore(d, 84, 62);
    assert d + [84] == s + [32, 32, 84, 88, 84];
  }

  lemma FiveSteps()
    ensures SumStep(11, 32) == 165 && SumStep(165, 32) == 242 && SumStep(242, 84) == 205
    ensures SumStep(205, 88) == 62 && SumStep(62, 84) == 115
  {
  }

  lemma SumNone()
    ensures Checksum([]) == 0
  {
  }

  lemma SumMore(s: seq<Byte>, b: Byte, sum: Byte)
    requires Checksum(s) == sum
    ensures Checksum(s + [b]) == SumStep(sum, b)
  {
    hide SumStep;
    assert (s + [b])[..|s|] == s;
  }

  function Lower(b: Byte): Byte {
    if 65 <= b <= 90 then b + 32 else b
  }

  /** Equal but for the case of ASCII letters. */
  predicate SameName(a: Name, b: Name) {
    |a| == |b| && forall k | 0 <= k < |a| :: Lower(a[k]) == Lower(b[k])
  }

  predicate SlotsOk(dir: seq<Slot>) {
    forall k | 0 <= k < |dir| :: (dir[k].Long? ==> LfnOk(dir[k].l)) && (dir[k].Short? ==> |dir[k].short| == 11)
  }

  predicate Matches(s: Scan, short: seq<Byte>, target: Name, formatted: seq<Byte>)
    requires ScanOk(s)
  {
    (s.active && Checksum(short) == s.expected && SameName(DecodedName(s), target)) || short == formatted
  }

  function Step(s: Scan, slot: Slot): (r: Scan)
    requires ScanOk(s) && (slot.Long? ==> LfnOk(slot.l))
    ensures ScanOk(r)
  {
    match slot
    case Long(l) => Collect(s, l)
    case Deleted => s.(active := false)
    case Short(_) => s.(active := false)
    case End => s
  }

  /** Index of the first slot from j on that matches, or |dir|. */
  function Find(s: Scan, dir: seq<Slot>, j: nat, target: Name, formatted: seq<Byte>): (i: nat)
    requires ScanOk(s) && SlotsOk(dir) && j <= |dir|
    ensures j <= i <= |dir| && (i < |dir| ==> dir[i].Short?)
    decreases |dir| - j
  {
    if j == |dir| || dir[j].End? then |dir|
    else if dir[j].Short? && Matches(s, dir[j].short, target, formatted) then j
    else Find(Step(s, dir[j]), dir, j + 1, target, formatted)
  }

  /** Passing m slots of which none ends the directory or matches. */
  lemma {:induction false} FindSkipsParts(s: Scan, dir: seq<Slot>, j: nat, m: nat, target: Name, formatted: seq<Byte>)
    requires ScanOk(s) && SlotsOk(dir) && j + m <= |dir|
    requires AllParts(dir[j..j + m])
    ensures Find(s, dir, j, target, formatted) == Find(CollectAll(s, dir[j..j + m]), dir, j + m, target, formatted)
    decreases m
  {
    hide Collect, Matches;
    if m > 0 {
      var a, b := dir[j..j + m], dir[j..j + (m - 1)];
      assert a[..m - 1] == b;
      assert AllParts(b) by {
        assert forall k | 0 <= k < m - 1 :: b[k] == a[k];
      }
      FindSkipsParts(s, dir, j, m - 1, target, formatted);
      assert dir[j + (m - 1)] == a[m - 1];
    } else {
      assert dir[j..j] == [];
    }
  }

  /**
   Wherever in a directory the slots of a name stand, a scan that reaches them, in whatever state,
   finds that name there exactly when it has at most 247 characters or its short form matches.
   */
  lemma FindsLongNameIff(s: Scan, dir: seq<Slot>, j: nat, name: Name, short: seq<Byte>, formatted: seq<Byte>)
    requires ScanOk(s) && SlotsOk(dir) && 0 < |name| <= 255 && NulFree(name)
    requires j + Count(name) < |dir| && dir[j..j + Count(name)] == Parts(name, Checksum(short), Count(name))
    requires dir[j + Count(name)] == Short(short)
    ensures Find(s, dir, j, name, formatted) == j + Count(name) <==> |name| <= 247 || short == formatted
  {
    hide Collect, CollectAll, Parts, Checksum, CStr, Units;
    var m := Count(name);
    DecodeIs(name, Checksum(short), s);
    FindSkipsParts(s, dir, j, m, name, formatted);
    var r := CollectAll(s, dir[j..j + m]);
    assert |name| > 247 ==> |DecodedName(r)| != |name|;
    FindHere(r, dir, j + m, name, formatted);
  }

  /** Letters match in either case, everything else only itself. */
  lemma SameLetterIff(x: Byte, y: Byte)
    ensures Lower(x) == Lower(y) <==> x == y || (65 <= x <= 90 && y == x + 32) || (65 <= y <= 90 && x == y + 32)
  {
  }

  /** The same for any name searched: it is found there exactly when its letters are those of the name kept, or by the short form. */
  lemma FindsVariantIff(s: Scan, dir: seq<Slot>, j: nat, name: Name, short: seq<Byte>, target: Name, formatted: seq<Byte>)
    requires ScanOk(s) && SlotsOk(dir) && 0 < |name| <= 255 && NulFree(name)
    requires j + Count(name) < |dir| && dir[j..j + Count(name)] == Parts(name, Checksum(short), Count(name))
    requires dir[j + Count(name)] == Short(short)
    ensures Find(s, dir, j, target, formatted) == j + Count(name) <==> SameName(name[..if |name| < LIMIT then |name| else LIMIT], target) || short == formatted
  {
    hide Collect, CollectAll, Parts, Checksum, CStr, Units, SameName, Find, DecodedName;
    var m := Count(name);
    DecodeIs(name, Checksum(short), s);
    FindSkipsParts(s, dir, j, m, target, formatted);
    FindHere(CollectAll(s, dir[j..j + m]), dir, j + m, target, formatted);
  }

  lemma FindHere(s: Scan, dir: seq<Slot>, j: nat, target: Name, formatted: seq<Byte>)
    requires ScanOk(s) && SlotsOk(dir) && j < |dir| && dir[j].Short?
    ensures Find(s, dir, j, target, formatted) == j <==> Matches(s, dir[j].short, target, formatted)
  {
    hide Matches, Step;
  }

  /** Two scans that differ at most in a buffer that is not in use. */
  predicate Alike(s: Scan, t: Scan) {
    s.active == t.active && (s.active ==> s == t)
  }

  lemma StepAlike(s: Scan, t: Scan, slot: Slot)
    requires ScanOk(s) && ScanOk(t) && Alike(s, t) && (slot.Long? ==> LfnOk(slot.l))
    ensures Alike(Step(s, slot), Step(t, slot))
  {
    hide Splice, Lows;
  }

  lemma {:induction false} FindAlike(s: Scan, t: Scan, dir: seq<Slot>, j: nat, target: Name, formatted: seq<Byte>)
    requires ScanOk(s) && ScanOk(t) && Alike(s, t) && SlotsOk(dir) && j <= |dir|
    ensures Find(s, dir, j, target, formatted) == Find(t, dir, j, target, formatted)
    decreases |dir| - j
  {
    hide Step;
    if j < |dir| && !dir[j].End? && !(dir[j].Short? && Matches(s, dir[j].short, target, formatted)) {
      StepAlike(s, t, dir[j]);
      FindAlike(Step(s, dir[j]), Step(t, dir[j]), dir, j + 1, target, formatted);
    }
  }

  /**
   Past a deleted slot, or a short entry of another file, nothing collected before counts: the search
   goes on as one that starts there, and a short entry right behind can match by its short name only.
   */
  lemma ScanForgets(s: Scan, t: Scan, dir: seq<Slot>, j: nat, target: Name, formatted: seq<Byte>)
    requires ScanOk(s) && ScanOk(t) && !t.active && SlotsOk(dir) && j < |dir|
    requires dir[j].Deleted? || (dir[j].Short? && !Matches(s, dir[j].short, target, formatted))
    ensures Find(s, dir, j, target, formatted) == Find(t, dir, j + 1, target, formatted)
    ensures j + 1 < |dir| && dir[j + 1].Short? ==> (Find(s, dir, j, target, formatted) == j + 1 <==> dir[j + 1].short == formatted)
  {
    hide Checksum, DecodedName;
    FindAlike(Step(s, dir[j]), t, dir, j + 1, target, formatted);
    if j + 1 < |dir| && dir[j + 1].Short? {
      FindHere(t, dir, j + 1, target, formatted);
    }
  }

  // ----- as the driver does it -----

  method LfnChecksum(short: seq<Byte>) returns (sum: Byte)
    requires |short| == 11
    ensures sum == Checksum(short)
  {
    sum := 0;
    var i, at := 11, 0;
    while i != 0
      invariant 0 <= i <= 11 && at == 11 - i && sum == Checksum(short[..at])
    {
      assert short[..at + 1][..at] == short[..at];
      sum := ((if sum % 2 == 1 then 0x80 else 0) + sum / 2 + short[at]) % 256;
      at := at + 1;
      i := i - 1;
    }
    assert short[..11] == short;
  }

  method FillUnits(name: Name, offset: nat, n: nat) returns (u: seq<nat>)
    ensures u == Units(name, offset, n)
  {
    u := [];
    var k := 0;
    while k < n
      invariant k <= n && |u| == k && forall i | 0 <= i < k :: u[i] == Unit(name, offset + i)
    {
      u := u + [if offset + k < |name| then Wide(name[offset + k]) else if offset + k == |name| then 0 else 0xFFFF];
      k := k + 1;
    }
  }

  /** The slots of a new file: the parts of its long name in reverse, then the short entry. */
  method BuildEntries(name: Name, short: seq<Byte>) returns (entries: array<Slot>)
    requires |short| == 11
    ensures entries.Length == Count(name) + 1
    ensures entries[..] == Parts(name, Checksum(short), Count(name)) + [Short(short)]
    ensures fresh(entries)
  {
    hide Parts, Units, Unit;
    var count := (|name| + 12) / 13;
    entries := new Slot[count + 1](_ => End);
    var sum := LfnChecksum(short);
    var i := 0;
    while i < count
      invariant i <= count
      invariant forall k | 0 <= k < i :: entries[count - 1 - k] == Long(Part(name, k, sum))
    {
      var a := FillUnits(name, i * 13, 5);
      var b := FillUnits(name, i * 13 + 5, 6);
      var c := FillUnits(name, i * 13 + 5 + 6, 2);
      entries[count - 1 - i] := Long(Lfn(i + 1 + (if i == count - 1 then 0x40 else 0), a, b, c, sum));
      i := i + 1;
    }
    entries[count] := Short(short);
    forall m: nat | m < count ensures entries[m] == Parts(name, sum, count)[m] {
      PartsAt(name, sum, count, m);
      assert entries[count - 1 - (count - 1 - m)] == Long(Part(name, count - 1 - m, sum));
    }
  }

  lemma {:induction false} PartsAt(name: Name, checksum: nat, m: nat, k: nat)
    requires k < m <= Count(name)
    ensures Parts(name, checksum, m)[k] == Long(Part(name, Count(name) - 1 - k, checksum))
  {
    hide Part;
    if k < m - 1 {
      PartsAt(name, checksum, m - 1, k);
    }
  }

  method CompareIgnoreCase(a: Name, b: Name) returns (same: bool)
    ensures same == SameName(a, b)
  {
    var i := 0;
    while i < |a| && i < |b|
      invariant i <= |a| && i <= |b| && forall k | 0 <= k < i :: Lower(a[k]) == Lower(b[k])
    {
      if Lower(a[i]) != Lower(b[i]) {
        return false;
      }
      i := i + 1;
    }
    same := i == |a| && i == |b|;
  }

  method CopyString(buf: array<Byte>) returns (s: Name)
    ensures s == CStr(buf[..], 0)
  {
    s := [];
    var i := 0;
    while i < buf.Length && buf[i] != 0
      invariant i <= buf.Length && CStr(buf[..], 0) == s + CStr(buf[..], i)
    {
      s := s + [buf[i]];
      i := i + 1;
    }
  }

  /** Scan a directory for a name, with one buffer in which long names are collected. */
  method FindEntry(dir: seq<Slot>, target: Name, formatted: seq<Byte>, buf: array<Byte>) returns (index: int)
    requires SlotsOk(dir) && buf.Length == 256
    modifies buf
    ensures var i := Find(Scan(old(buf[..]), false, 0), dir, 0, target, formatted); index == if i < |dir| then i else -1
  {
    hide CStr, Checksum, Splice, Lows;
    var active, expected: nat := false, 0;
    ghost var s0 := Scan(buf[..], false, 0);
    var j := 0;
    while j < |dir|
      invariant j <= |dir|
      invariant Find(s0, dir, 0, target, formatted) == Find(Scan(buf[..], active, expected), dir, j, target, formatted)
    {
      ghost var s := Scan(buf[..], active, expected);
      match dir[j] {
        case End =>
          return -1;
        case Deleted =>
          active := false;
        case Long(l) =>
          active, expected := CollectInto(buf, active, expected, l);
        case Short(short) =>
          var isMatch := false;
          var sum := LfnChecksum(short);
          if active && sum == expected {
            var name := CopyString(buf);
            isMatch := CompareIgnoreCase(name, target);
          }
          if isMatch || short == formatted {
            return j;
          }
          active := false;
      }
      j := j + 1;
    }
    index := -1;
  }

  /** One long-name part: a part with the 0x40 mark clears the buffer; parts with the right checksum are stored. */
  method CollectInto(buf: array<Byte>, active0: bool, expected0: nat, l: Lfn) returns (active: bool, expected: nat)
    requires buf.Length == 256 && LfnOk(l)
    modifies buf
    ensures Scan(buf[..], active, expected) == Collect(Scan(old(buf[..]), active0, expected0), l)
  {
    hide Splice, Lows, Zeros;
    active, expected := active0, expected0;
    if l.order / 0x40 % 2 == 1 {
      ClearBuffer(buf);
      active, expected := true, l.checksum;
    }
    if active && l.checksum == expected {
      var offset := (l.order % 0x40 - 1) * 13;
      if offset >= 0 && offset < 242 {
        StoreUnits(buf, offset, l.name1 + l.name2 + l.name3);
      }
    }
  }

  method ClearBuffer(buf: array<Byte>)
    requires buf.Length == 256
    modifies buf
    ensures buf[..] == Zeros(256)
  {
    var k := 0;
    while k < 256
      invariant k <= 256 && forall i | 0 <= i < k :: buf[i] == 0
    {
      buf[k] := 0;
      k := k + 1;
    }
  }

  /** The low bytes of 13 units, at their place. */
  method StoreUnits(buf: array<Byte>, offset: nat, units: seq<nat>)
    requires |units| == 13 && offset + 13 <= buf.Length
    modifies buf
    ensures buf[..] == Splice(old(buf[..]), offset, Lows(units))
  {
    hide Splice;
    ghost var was := buf[..];
    var k := 0;
    while k < 13
      invariant k <= 13
      invariant forall i | 0 <= i < buf.Length :: buf[i] == if offset <= i < offset + k then units[i - offset] % 256 else was[i]
    {
      buf[offset + k] := units[k] % 256;
      k := k + 1;
    }
    SpliceAt(was, offset, Lows(units));
  }
}
