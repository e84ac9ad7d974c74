/**
 Physical pages: the page bitmap, the counter of used bytes and the words of memory.
 A machine word is an unsigned 32-bit number; addresses count bytes, memory is indexed by words.
 */
module Pages {
  import opened Bits
  import opened Bytes

  type Word = w: nat | w < 0x1_0000_0000

  const WORDS: nat := 1024
  const MAXPAGES: nat := 32768

  /** Memory of `size` pages: which are used, the count of used bytes, and the contents. */
  datatype Mem = Mem(size: nat, used: set<nat>, count: Word, words: seq<Word>)

  predicate MemOk(m: Mem) {
    && m.size <= MAXPAGES && |m.words| == m.size * WORDS
    && forall p | p in m.used :: p < m.size
  }

  /** The counter of used bytes agrees with the bitmap. */
  predicate Counted(m: Mem) {
    m.count as int == 4096 * |m.used|
  }

  function Zeros(n: nat): (z: seq<Word>)
    ensures |z| == n
  {
    seq(n, _ => 0)
  }

  /** The lowest page >= from that is not in use, or n. */
  function Lowest(used: set<nat>, n: nat, from: nat): (p: nat)
    requires from <= n
    ensures from <= p <= n && (p < n ==> p !in used)
    decreases n - from
  {
    if from == n || from !in used then from else Lowest(used, n, from + 1)
  }

  /** `Lowest` is where no lower page is free. */
  lemma {:induction false} LowestFirst(used: set<nat>, n: nat, from: nat, q: nat)
    requires from <= q < n && q !in used
    ensures Lowest(used, n, from) <= q
    decreases n - from
  {
    if from in used {
      LowestFirst(used, n, from + 1, q);
    }
  }

  function Add32(a: Word, d: nat): Word {
    (a as nat + d) % 0x1_0000_0000
  }

  function PageAt(m: Mem, p: nat): (d: seq<Word>)
    requires MemOk(m) && p < m.size
    ensures |d| == WORDS
  {
    m.words[p * WORDS..(p + 1) * WORDS]
  }

  function SetPage(m: Mem, p: nat, d: seq<Word>): (r: Mem)
    requires MemOk(m) && p < m.size && |d| == WORDS
    ensures MemOk(r) && r.size == m.size && r.used == m.used && r.count == m.count
  {
    m.(words := Splice(m.words, p * WORDS, d))
  }

  lemma SetPageAt(m: Mem, p: nat, d: seq<Word>, q: nat)
    requires MemOk(m) && p < m.size && |d| == WORDS && q < m.size
    ensures PageAt(SetPage(m, p, d), q) == if q == p then d else PageAt(m, q)
  {
    var r := SetPage(m, p, d);
    SpliceAt(m.words, p * WORDS, d);
    assert |PageAt(r, q)| == WORDS;
    forall k: nat | k < WORDS ensures PageAt(r, q)[k] == if q == p then d[k] else PageAt(m, q)[k] {
      assert PageAt(r, q)[k] == r.words[q * WORDS + k] && PageAt(m, q)[k] == m.words[q * WORDS + k];
    }
  }

  // ----- allocating and freeing -----

  /** Allocation takes the lowest free page and clears it; with no free page nothing changes. */
  function Alloc(m: Mem): (r: Mem)
    requires MemOk(m)
    ensures MemOk(r) && r.size == m.size
  {
    var p := Lowest(m.used, m.size, 0);
    if p == m.size then m
    else SetPage(m.(used := m.used + {p}, count := Add32(m.count, 4096)), p, Zeros(WORDS))
  }

  /** The address returned: 0, the null pointer, when no page is free. */
  function AllocAddr(m: Mem): (a: nat)
    requires MemOk(m)
    ensures a % 4096 == 0
  {
    var p := Lowest(m.used, m.size, 0);
    if p == m.size then 0 else p * 4096
  }

  function Free(m: Mem, addr: nat): (r: Mem)
    requires MemOk(m)
    ensures MemOk(r) && r.size == m.size && r.words == m.words
  {
    if addr % 4096 == 0 && addr / 4096 < m.size then
      m.(used := m.used - {addr / 4096}, count := Add32(m.count, 0x1_0000_0000 - 4096))
    else m
  }

  lemma {:induction false} BelowCard(s: set<nat>, n: nat)
    requires forall p | p in s :: p < n
    ensures |s| <= n
  {
    if n > 0 {
      var t := s - {n - 1};
      BelowCard(t, n - 1);
      assert s <= t + {n - 1};
    } else {
      assert s == {};
    }
  }

  /** Allocation is complete: with page 0 in use it returns null exactly when every page is in use. */
  lemma AllocNullIff(m: Mem)
    requires MemOk(m) && m.size > 0
    ensures 0 in m.used ==> (AllocAddr(m) == 0 <==> forall p: nat | p < m.size :: p in m.used)
    ensures 0 !in m.used ==> AllocAddr(m) == 0 && 0 in Alloc(m).used
  {
    forall p: nat | p < m.size && p !in m.used ensures Lowest(m.used, m.size, 0) <= p {
      LowestFirst(m.used, m.size, 0, p);
    }
  }

  lemma AllocCounted(m: Mem)
    requires MemOk(m) && Counted(m)
    ensures Counted(Alloc(m))
  {
    hide Splice, PageAt;
    BelowCard(m.used, m.size);
    BelowCard(Alloc(m).used, m.size);
  }

  lemma MarkCounted(m: Mem, p: nat)
    requires MemOk(m) && Counted(m) && p < m.size && p !in m.used
    ensures Counted(m.(used := m.used + {p}, count := Add32(m.count, 4096)))
  {
    BelowCard(m.used, m.size);
    BelowCard(m.used + {p}, m.size);
  }

  lemma NoneUsed(bm: seq<nat>, n: nat)
    requires n <= 32 * |bm| && forall k | 0 <= k < |bm| :: bm[k] == 0
    ensures UsedIn(bm, n) == {}
    ensures forall words, size :: Counted(Mem(size, UsedIn(bm, n), 0, words))
  {
    hide BitOf;
    forall p: nat | p < n ensures !BitAt(bm, p) {
      NoBits(p % 32);
    }
  }

  lemma {:induction false} NoBits(i: nat)
    ensures !BitOf(0, i)
  {
    if i > 0 {
      NoBits(i - 1);
    }
  }

  /** Freeing keeps the counter right exactly when the call is ignored or the page was in use. */
  lemma FreeCountedIff(m: Mem, addr: nat)
    requires MemOk(m) && Counted(m)
    ensures Counted(Free(m, addr)) <==> addr % 4096 != 0 || addr / 4096 >= m.size || addr / 4096 in m.used
  {
    BelowCard(m.used, m.size);
    var p := addr / 4096;
    if p in m.used {
      assert |m.used - {p}| == |m.used| - 1;
    } else {
      assert m.used - {p} == m.used;
    }
  }

  /** Freeing the page just allocated restores the bitmap and the counter. */
  lemma FreeAlloc(m: Mem)
    requires MemOk(m) && Lowest(m.used, m.size, 0) < m.size
    ensures var r := Free(Alloc(m), AllocAddr(m)); r.used == m.used && r.count == m.count
  {
    hide Splice, PageAt;
    var p := Lowest(m.used, m.size, 0);
    assert m.used + {p} - {p} == m.used;
  }

  // ----- the bitmap -----

  predicate BitAt(bm: seq<nat>, p: nat)
    requires p / 32 < |bm|
  {
    BitOf(bm[p / 32], p % 32)
  }

  ghost function UsedIn(bm: seq<nat>, n: nat): set<nat>
    requires n <= 32 * |bm|
  {
    set p: nat | p < n && BitAt(bm, p)
  }

  lemma SetBitUsed(bm: seq<nat>, n: nat, p: nat)
    requires p < n <= 32 * |bm|
    ensures UsedIn(bm[p / 32 := SetBit(bm[p / 32], p % 32)], n) == UsedIn(bm, n) + {p}
    ensures UsedIn(bm[p / 32 := ClearBit(bm[p / 32], p % 32)], n) == UsedIn(bm, n) - {p}
  {
    hide BitOf, SetBit, ClearBit;
    var s := bm[p / 32 := SetBit(bm[p / 32], p % 32)];
    var c := bm[p / 32 := ClearBit(bm[p / 32], p % 32)];
    forall q: nat | q < n ensures BitAt(s, q) <==> q == p || BitAt(bm, q)
      ensures BitAt(c, q) <==> q != p && BitAt(bm, q)
    {
      SetBitOf(bm[p / 32], p % 32, q % 32);
      ClearBitOf(bm[p / 32], p % 32, q % 32);
    }
  }

  class Memory {
    const bitmap: array<nat>
    const mem: array<Word>
    const pages: nat
    var used: Word

    ghost predicate Valid()
      reads this
    {
      && bitmap.Length == 1024 && pages <= MAXPAGES && mem.Length == pages * WORDS && mem as object != bitmap as object
    }

    ghost function St(): (m: Mem)
      reads this, bitmap, mem
      requires Valid()
      ensures |m.words| == m.size * WORDS && MemOk(m)
    {
      Mem(pages, UsedIn(bitmap[..], pages), used, mem[..])
    }

    /** The state memory_init leaves: the pages below the end of the kernel are in use. */
    constructor (total: Word, kernelEnd: Word)
      requires (kernelEnd as nat + 4095) / 4096 <= total / 4096 && kernelEnd <= MAXPAGES * 4096
      ensures Valid() && fresh(bitmap) && fresh(mem)
      ensures pages == if total / 4096 > MAXPAGES then MAXPAGES else total / 4096
      ensures Counted(St()) && forall p :: p in St().used <==> 0 <= p < (kernelEnd as nat + 4095) / 4096
    {
      hide SetBit, BitOf, UsedIn, Counted;
      var size := if total / 4096 > MAXPAGES then MAXPAGES else total / 4096;
      pages := size;
      bitmap := new nat[1024](_ => 0);
      mem := new Word[size * WORDS](_ => 0);
      used := 0;
      new;
      NoneUsed(bitmap[..], size);
      var p, last := 0, (kernelEnd as nat + 4095) / 4096;
      while p < last
        invariant p <= last && Valid() && Counted(St()) && pages == size && fresh(bitmap) && fresh(mem)
        invariant forall q :: q in St().used <==> 0 <= q < p
      {
        ghost var was := St();
        MarkUsed(p);
        MarkCounted(was, p);
        p := p + 1;
      }
    }

    method MarkUsed(p: nat)
      requires Valid() && p < pages
      modifies this, bitmap
      ensures Valid() && St() == old(St()).(used := old(St()).used + {p}, count := Add32(old(used), 4096))
    {
      hide SetBit, Splice;
      SetBitUsed(bitmap[..], pages, p);
      bitmap[p / 32] := SetBit(bitmap[p / 32], p % 32);
      used := Add32(used, 4096);
      assert bitmap[..] == old(bitmap[..])[p / 32 := SetBit(old(bitmap[p / 32]), p % 32)];
    }

    method IsUsed(p: nat) returns (b: bool)
      requires Valid() && p < pages
      ensures b <==> p in St().used
    {
      b := BitOf(bitmap[p / 32], p % 32);
    }

    method AllocPage() returns (addr: nat)
      requires Valid()
      modifies this, bitmap, mem
      ensures Valid() && addr == AllocAddr(old(St())) && St() == Alloc(old(St()))
    {
      hide SetBit, BitOf, UsedIn, BitAt;
      ghost var was := St();
      var i := 0;
      addr := 0;
      while i < pages
        invariant i <= pages && addr == 0 && St() == was
        invariant Lowest(was.used, was.size, 0) == Lowest(was.used, was.size, i)
      {
        var b := IsUsed(i);
        if !b {
          MarkUsed(i);
          addr := i * 4096;
          var j := 0;
          while j < WORDS
            invariant j <= WORDS
            invariant St().(words := []) == was.(used := was.used + {i}, count := Add32(was.count, 4096), words := [])
            invariant forall k: nat | k < mem.Length :: mem[k] == if i * WORDS <= k < i * WORDS + j then 0 else was.words[k]
          {
            mem[i * WORDS + j] := 0;
            j := j + 1;
          }
          SpliceAt(was.words, i * WORDS, Zeros(WORDS));
          assert St().words == Splice(was.words, i * WORDS, Zeros(WORDS));
          return;
        }
        i := i + 1;
      }
    }

    method FreePage(addr: nat)
      requires Valid()
      modifies this, bitmap
      ensures Valid() && St() == Free(old(St()), addr)
    {
      hide ClearBit, Splice;
      if addr % 4096 != 0 {
        return;
      }
      var p := addr / 4096;
      if p < pages {
        SetBitUsed(bitmap[..], pages, p);
        bitmap[p / 32] := ClearBit(bitmap[p / 32], p % 32);
        used := Add32(used, 0x1_0000_0000 - 4096);
        assert bitmap[..] == old(bitmap[..])[p / 32 := ClearBit(old(bitmap[p / 32]), p % 32)];
      }
    }
  }
}
