/** The packed records of one directory block. */
module Ext2Records {
  import opened Bytes

  type Block = seq<Byte>

  /** A live directory entry: name, inode number and file type. */
  datatype Entry = Entry(name: seq<Byte>, ino: nat, kind: Byte)

  datatype Option<T> = None | Some(value: T)

  function Ino(blk: Block, o: nat): nat
    requires o + 8 <= |blk|
  {
    Get32(blk, o)
  }

  function RecLen(blk: Block, o: nat): nat
    requires o + 8 <= |blk|
  {
    Get16(blk, o + 4)
  }

  function NameLen(blk: Block, o: nat): nat
    requires o + 8 <= |blk|
  {
    blk[o + 6]
  }

  /** (8 + n + 3) & ~3 */
  function Rounded(n: nat): nat {
    (8 + n + 3) / 4 * 4
  }

  /** What an existing record needs for itself. */
  function RealLen(blk: Block, o: nat): nat
    requires o + 8 <= |blk|
  {
    if Ino(blk, o) != 0 then Rounded(NameLen(blk, o)) else 0
  }

  /** A record header at o that stays inside the block and, when in use, holds its own name. */
  predicate Record(blk: Block, o: nat) {
    && o + 8 <= |blk|
    && 8 <= RecLen(blk, o) && RecLen(blk, o) % 4 == 0 && o + RecLen(blk, o) <= |blk|
    && (Ino(blk, o) != 0 ==> 8 + NameLen(blk, o) <= RecLen(blk, o))
  }

  /** From o on, records fill the block exactly to its end. */
  predicate Tiled(blk: Block, o: nat)
    decreases |blk| - o
  {
    o == |blk| || (o < |blk| && Record(blk, o) && Tiled(blk, o + RecLen(blk, o)))
  }

  predicate InUse(blk: Block, o: nat)
    requires o + 8 <= |blk|
  {
    Ino(blk, o) != 0 && NameLen(blk, o) > 0
  }

  function EntryAt(blk: Block, o: nat): Entry
    requires Record(blk, o) && InUse(blk, o)
  {
    Entry(blk[o + 8..o + 8 + NameLen(blk, o)], Ino(blk, o), blk[o + 7])
  }

  function Head(blk: Block, o: nat): (h: seq<Entry>)
    requires Record(blk, o)
    ensures |h| <= 1
  {
    if InUse(blk, o) then [EntryAt(blk, o)] else []
  }

  /** The live entries from o on, in the order a scan meets them. */
  function Entries(blk: Block, o: nat): seq<Entry>
    requires Tiled(blk, o)
    decreases |blk| - o
  {
    if o == |blk| then [] else Head(blk, o) + Entries(blk, o + RecLen(blk, o))
  }

  /** Inode number of the first entry with this name, or 0. */
  function Lookup(es: seq<Entry>, name: seq<Byte>): nat {
    if es == [] then 0 else if es[0].name == name then es[0].ino else Lookup(es[1..], name)
  }

  /** All entries but the first with this name. */
  function Without(es: seq<Entry>, name: seq<Byte>): seq<Entry> {
    if es == [] then [] else if es[0].name == name then es[1..] else [es[0]] + Without(es[1..], name)
  }

  predicate Matches(blk: Block, o: nat, name: seq<Byte>)
    requires Record(blk, o)
  {
    InUse(blk, o) && NameLen(blk, o) == |name| && blk[o + 8..o + 8 + |name|] == name
  }

  /** Offset of the first record with this name. */
  function FindRec(blk: Block, o: nat, name: seq<Byte>): (r: Option<nat>)
    requires Tiled(blk, o)
    ensures r.Some? ==> o <= r.value && Record(blk, r.value) && Matches(blk, r.value, name)
    decreases |blk| - o
  {
    if o == |blk| then None else if Matches(blk, o, name) then Some(o) else FindRec(blk, o + RecLen(blk, o), name)
  }

  /** Offset of the first record with `need` bytes to spare. */
  function FitRec(blk: Block, o: nat, need: nat): (r: Option<nat>)
    requires Tiled(blk, o)
    ensures r.Some? ==> o <= r.value && Record(blk, r.value) && RecLen(blk, r.value) - RealLen(blk, r.value) >= need
    decreases |blk| - o
  {
    if o == |blk| then None
    else if RecLen(blk, o) - RealLen(blk, o) >= need then Some(o)
    else FitRec(blk, o + RecLen(blk, o), need)
  }

  /** Writes the header and name of a record at o. */
  function PutRec(blk: Block, o: nat, ino: nat, len: nat, name: seq<Byte>, kind: Byte): (r: Block)
    requires ino < TWO32 && len < 0x1_0000 && |name| < 256 && o + 8 + |name| <= |blk|
    ensures |r| == |blk|
  {
    var nl: Byte := |name|;
    Splice(Put16(Put32(blk, o, ino), o + 4, len)[o + 6 := nl][o + 7 := kind], o + 8, name)
  }

  /** Splits the spare room off the record at o and puts the new record there. */
  function InsertAt(blk: Block, o: nat, ino: nat, name: seq<Byte>, kind: Byte): (r: Block)
    requires Record(blk, o) && ino < TWO32 && |name| < 256
    requires RecLen(blk, o) - RealLen(blk, o) >= Rounded(|name|)
    ensures |r| == |blk|
  {
    var keep, len := RealLen(blk, o), RecLen(blk, o);
    PutRec(Put16(blk, o + 4, keep), o + keep, ino, len - keep, name, kind)
  }

  /** entry->inode = 0 */
  function ClearAt(blk: Block, o: nat): (r: Block)
    requires Record(blk, o)
    ensures |r| == |blk|
  {
    Put32(blk, o, 0)
  }

  // ----- what the writes do, byte by byte -----

  lemma PutRecFields(blk: Block, o: nat, ino: nat, len: nat, name: seq<Byte>, kind: Byte)
    requires ino < TWO32 && len < 0x1_0000 && |name| < 256 && o + 8 + |name| <= |blk|
    ensures var r := PutRec(blk, o, ino, len, name, kind);
      && Ino(r, o) == ino && RecLen(r, o) == len && NameLen(r, o) == |name| && r[o + 7] == kind
      && r[o + 8..o + 8 + |name|] == name
      && forall k | 0 <= k < |blk| && !(o <= k < o + 8 + |name|) :: r[k] == blk[k]
  {
    hide Get32, Get16, Enc32;
    var a := Put32(blk, o, ino);
    var b := Put16(a, o + 4, len);
    var nl: Byte := |name|;
    var c: Block := b[o + 6 := nl][o + 7 := kind];
    var r := PutRec(blk, o, ino, len, name, kind);
    SpliceAt(blk, o, Enc32(ino));
    SpliceAt(a, o + 4, [len % 256, len / 256]);
    SpliceAt(c, o + 8, name);
    Put16Frame(a, o + 4, len, o);
    Get32Frame(b, r, o);
    SameGet16(b, r, o + 4);
  }

  lemma SameGet16(s: Block, t: Block, o: nat)
    requires o + 2 <= |s| == |t| && s[o] == t[o] && s[o + 1] == t[o + 1]
    ensures Get16(s, o) == Get16(t, o)
  {
  }

  /** A record all of whose bytes are the same in another block is the same record there. */
  lemma SameRecord(s: Block, t: Block, o: nat)
    requires |s| == |t| && Record(s, o) && forall k | o <= k < o + RecLen(s, o) :: t[k] == s[k]
    ensures Record(t, o) && RecLen(t, o) == RecLen(s, o) && RealLen(t, o) == RealLen(s, o) && Head(t, o) == Head(s, o)
  {
    hide Get16, Get32;
    Get32Frame(s, t, o);
    SameGet16(s, t, o + 4);
    if Ino(s, o) != 0 {
      assert t[o + 8..o + 8 + NameLen(s, o)] == s[o + 8..o + 8 + NameLen(s, o)];
    }
  }

  /** The entries from o on depend on the bytes from o on only. */
  lemma {:induction false} SameTail(s: Block, t: Block, o: nat)
    requires |s| == |t| && Tiled(s, o) && forall k | o <= k < |s| :: t[k] == s[k]
    ensures Tiled(t, o) && Entries(t, o) == Entries(s, o)
    decreases |s| - o
  {
    hide Record, RecLen, Head;
    if o < |s| {
      RecordInside(s, o);
      SameRecord(s, t, o);
      SameTail(s, t, o + RecLen(s, o));
    }
  }

  lemma RecordInside(s: Block, o: nat)
    requires Record(s, o)
    ensures o + 8 <= o + RecLen(s, o) <= |s| && RecLen(s, o) % 4 == 0
  {
  }

  lemma RealLenIs(blk: Block, o: nat)
    requires Record(blk, o)
    ensures RealLen(blk, o) % 4 == 0 && RealLen(blk, o) <= RecLen(blk, o)
    ensures RealLen(blk, o) == 0 || 8 + NameLen(blk, o) <= RealLen(blk, o)
    ensures RealLen(blk, o) == 0 <==> Ino(blk, o) == 0
  {
    hide Get32, Get16;
  }

  lemma RoundedIs(n: nat)
    ensures 8 + n <= Rounded(n) <= 8 + n + 3 && Rounded(n) % 4 == 0
  {
  }

  /** Where the two records made by a split lie, and that nothing outside the old record changed. */
  lemma InsertFields(blk: Block, o: nat, ino: nat, name: seq<Byte>, kind: Byte)
    requires Record(blk, o) && ino < TWO32 && |name| < 256
    requires RecLen(blk, o) - RealLen(blk, o) >= Rounded(|name|)
    ensures var r := InsertAt(blk, o, ino, name, kind); var keep, len := RealLen(blk, o), RecLen(blk, o); var n := o + keep;
      && o + len <= |blk| && n + 8 + |name| <= o + len
      && (forall k | 0 <= k < o || o + len <= k < |blk| :: r[k] == blk[k])
      && Ino(r, n) == ino && RecLen(r, n) == len - keep && NameLen(r, n) == |name| && r[n + 7] == kind && r[n + 8..n + 8 + |name|] == name
      && (keep > 0 ==> RecLen(r, o) == keep && forall k | o <= k < o + 4 || o + 6 <= k < n :: r[k] == blk[k])
  {
    hide Get32, Get16, RealLen, Rounded, PutRec, Splice;
    var keep, len := RealLen(blk, o), RecLen(blk, o);
    RealLenIs(blk, o);
    RoundedIs(|name|);
    var a := Put16(blk, o + 4, keep);
    var r := InsertAt(blk, o, ino, name, kind);
    PutRecFields(a, o + keep, ino, len - keep, name, kind);
    SpliceAt(blk, o + 4, [keep % 256, keep / 256]);
    if keep > 0 {
      SameGet16(a, r, o + 4);
    }
  }

  /** After the split: the old entry, if there was one, and behind it the new one. */
  lemma InsertHead(blk: Block, o: nat, ino: nat, name: seq<Byte>, kind: Byte)
    requires Record(blk, o) && 0 < ino < TWO32 && 0 < |name| < 256
    requires RecLen(blk, o) - RealLen(blk, o) >= Rounded(|name|)
    ensures var r := InsertAt(blk, o, ino, name, kind); var n := o + RealLen(blk, o);
      && Record(r, n) && n + RecLen(r, n) == o + RecLen(blk, o) && Head(r, n) == [Entry(name, ino, kind)]
      && (RealLen(blk, o) > 0 ==> Record(r, o) && o + RecLen(r, o) == n && Head(r, o) == Head(blk, o))
      && (RealLen(blk, o) == 0 ==> Head(blk, o) == [])
  {
    hide Get32, Get16, InsertAt, RealLen, Rounded;
    var r := InsertAt(blk, o, ino, name, kind);
    RealLenIs(blk, o);
    RoundedIs(|name|);
    InsertFields(blk, o, ino, name, kind);
    if RealLen(blk, o) > 0 {
      SameHead(blk, r, o);
    }
  }

  /** A record keeps its entry while its number, name length, type and name stay; the length may shrink. */
  lemma SameHead(s: Block, t: Block, o: nat)
    requires Record(s, o) && |t| == |s| && (forall k | o <= k < o + 4 || (o + 6 <= k < o + 8 + NameLen(s, o) && k < |s|) :: t[k] == s[k])
    requires Ino(s, o) != 0 && o + 8 + NameLen(s, o) <= |s|
    ensures Ino(t, o) == Ino(s, o) && NameLen(t, o) == NameLen(s, o)
    ensures Record(t, o) ==> Head(t, o) == Head(s, o)
  {
    hide Get32, Get16, RecLen;
    Get32Frame(s, t, o);
    var n := NameLen(s, o);
    assert t[o + 8..o + 8 + n] == s[o + 8..o + 8 + n];
  }

  lemma TiledStep(blk: Block, o: nat)
    requires o < |blk|
    ensures Tiled(blk, o) <==> Record(blk, o) && Tiled(blk, o + RecLen(blk, o))
    ensures Tiled(blk, o) ==> Entries(blk, o) == Head(blk, o) + Entries(blk, o + RecLen(blk, o))
  {
    hide Record, RecLen, Head;
  }

  /** Adding a record inserts one entry into the list, keeps the order of the others, and keeps the tiling. */
  lemma {:induction false} InsertEntries(blk: Block, s: nat, o: nat, ino: nat, name: seq<Byte>, kind: Byte) returns (k: nat)
    requires Tiled(blk, s) && 0 < ino < TWO32 && 0 < |name| < 256
    requires FitRec(blk, s, Rounded(|name|)) == Some(o)
    ensures Tiled(InsertAt(blk, o, ino, name, kind), s) && k <= |Entries(blk, s)|
    ensures Entries(InsertAt(blk, o, ino, name, kind), s)
         == Entries(blk, s)[..k] + [Entry(name, ino, kind)] + Entries(blk, s)[k..]
    decreases |blk| - s
  {
    hide *;
    var r := InsertAt(blk, o, ino, name, kind);
    FitStep(blk, s, o, Rounded(|name|));
    InsertFields(blk, o, ino, name, kind);
    RecordInside(blk, s);
    RecordInside(blk, o);
    var next := s + RecLen(blk, s);
    TiledStep(blk, s);
    TiledStep(r, s);
    var rest := Entries(blk, next);
    if s == o {
      InsertHead(blk, o, ino, name, kind);
      SameTail(blk, r, next);
      TiledStep(r, o + RealLen(blk, o));
      k := |Head(blk, o)|;
      SplitHead(Head(blk, o), Entry(name, ino, kind), rest, 0);
    } else {
      var j := InsertEntries(blk, next, o, ino, name, kind);
      SameRecord(blk, r, s);
      k := |Head(blk, s)| + j;
      SplitHead(Head(blk, s), Entry(name, ino, kind), rest, j);
    }
  }

  /** What the search says about the first record it looks at. */
  lemma FitStep(blk: Block, s: nat, o: nat, need: nat)
    requires Tiled(blk, s) && FitRec(blk, s, need) == Some(o)
    ensures s < |blk| && Record(blk, s) && Record(blk, o) && RecLen(blk, o) - RealLen(blk, o) >= need
    ensures s != o ==> Tiled(blk, s + RecLen(blk, s)) && FitRec(blk, s + RecLen(blk, s), need) == Some(o)
    ensures s != o ==> s + RecLen(blk, s) <= o
  {
    hide RecLen, RealLen;
  }

  lemma SplitHead(h: seq<Entry>, e: Entry, rest: seq<Entry>, j: nat)
    requires j <= |rest|
    ensures h + (rest[..j] + [e] + rest[j..]) == (h + rest)[..|h| + j] + [e] + (h + rest)[|h| + j..]
  {
  }

  lemma ClearFields(blk: Block, o: nat)
    requires Record(blk, o)
    ensures var r := ClearAt(blk, o);
      && Record(r, o) && RecLen(r, o) == RecLen(blk, o) && Head(r, o) == []
      && forall k | 0 <= k < |blk| && !(o <= k < o + 4) :: r[k] == blk[k]
  {
    hide Get32, Get16, Enc32;
    Put32Frame(blk, o, 0, o + 4);
    SpliceAt(blk, o, Enc32(0));
  }

  /** Clearing the record a search found removes the first entry of that name, and keeps the tiling. */
  lemma {:induction false} ClearEntries(blk: Block, s: nat, o: nat, name: seq<Byte>)
    requires Tiled(blk, s) && FindRec(blk, s, name) == Some(o)
    ensures Tiled(ClearAt(blk, o), s)
    ensures Entries(ClearAt(blk, o), s) == Without(Entries(blk, s), name)
    decreases |blk| - s
  {
    hide *;
    var r := ClearAt(blk, o);
    FindStep(blk, s, o, name);
    ClearFields(blk, o);
    RecordInside(blk, s);
    RecordInside(blk, o);
    MatchesHead(blk, s, name);
    TiledStep(blk, s);
    TiledStep(r, s);
    var next := s + RecLen(blk, s);
    HeadFirst(Head(blk, s), Entries(blk, next), name);
    if s == o {
      SameTail(blk, r, next);
    } else {
      ClearEntries(blk, next, o, name);
      SameRecord(blk, r, s);
    }
  }

  lemma FindStep(blk: Block, s: nat, o: nat, name: seq<Byte>)
    requires Tiled(blk, s) && FindRec(blk, s, name) == Some(o)
    ensures s < |blk| && Record(blk, s) && Record(blk, o) && (s == o <==> Matches(blk, s, name))
    ensures s != o ==> Tiled(blk, s + RecLen(blk, s)) && FindRec(blk, s + RecLen(blk, s), name) == Some(o)
    ensures s != o ==> s + RecLen(blk, s) <= o
  {
    hide RecLen, Matches;
  }

  /** Looking up or removing a name in a list with at most one entry in front. */
  lemma HeadFirst(h: seq<Entry>, rest: seq<Entry>, name: seq<Byte>)
    requires |h| <= 1
    ensures h != [] && h[0].name == name ==> Lookup(h + rest, name) == h[0].ino && Without(h + rest, name) == rest
    ensures !(h != [] && h[0].name == name) ==>
              Lookup(h + rest, name) == Lookup(rest, name) && Without(h + rest, name) == h + Without(rest, name)
  {
    if h == [] {
      assert h + rest == rest;
      assert h + Without(rest, name) == Without(rest, name);
    } else {
      assert (h + rest)[1..] == rest && [(h + rest)[0]] == h;
    }
  }

  /** The name test of the scan is equality with the entry's name. */
  lemma MatchesHead(blk: Block, o: nat, name: seq<Byte>)
    requires Record(blk, o)
    ensures Matches(blk, o, name) <==> Head(blk, o) != [] && Head(blk, o)[0].name == name
    ensures Matches(blk, o, name) ==> Head(blk, o)[0].ino == Ino(blk, o) != 0
  {
    hide Get32, Get16;
  }

  /** The scan finds a record exactly when the list has the name, and it is the first such entry. */
  lemma {:induction false} FindRecIs(blk: Block, s: nat, name: seq<Byte>)
    requires Tiled(blk, s)
    ensures match FindRec(blk, s, name)
            case None => Lookup(Entries(blk, s), name) == 0 && forall e | e in Entries(blk, s) :: e.name != name
            case Some(o) => Lookup(Entries(blk, s), name) == Ino(blk, o) != 0
    decreases |blk| - s
  {
    hide Record, RecLen, Head, Matches, Ino;
    if s < |blk| {
      RecordInside(blk, s);
      MatchesHead(blk, s, name);
      FindRecIs(blk, s + RecLen(blk, s), name);
      HeadFirst(Head(blk, s), Entries(blk, s + RecLen(blk, s)), name);
    }
  }
}
