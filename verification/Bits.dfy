/** Single bits of an unsigned word: the meaning of `w & (1 << i)`, `w |= 1 << i` and `w &= ~(1 << i)`. */
module Bits {
  import opened Arith

  function Pow2(n: nat): (p: nat)
    ensures p >= 1
  {
    if n == 0 then 1 else 2 * Pow2(n - 1)
  }

  predicate BitOf(w: nat, i: nat) {
    if i == 0 then w % 2 == 1 else BitOf(w / 2, i - 1)
  }

  function SetBit(w: nat, i: nat): nat {
    if i == 0 then w - w % 2 + 1 else 2 * SetBit(w / 2, i - 1) + w % 2
  }

  function ClearBit(w: nat, i: nat): nat {
    if i == 0 then w - w % 2 else 2 * ClearBit(w / 2, i - 1) + w % 2
  }

  lemma {:induction false} SetBitOf(w: nat, i: nat, j: nat)
    ensures BitOf(SetBit(w, i), j) <==> i == j || BitOf(w, j)
  {
    if i > 0 && j > 0 {
      SetBitOf(w / 2, i - 1, j - 1);
    }
  }

  lemma {:induction false} ClearBitOf(w: nat, i: nat, j: nat)
    ensures BitOf(ClearBit(w, i), j) <==> i != j && BitOf(w, j)
  {
    if i > 0 && j > 0 {
      ClearBitOf(w / 2, i - 1, j - 1);
    }
  }

  /** What a bit is, as arithmetic: w & (1 << i) is not zero. */
  lemma {:induction false} BitOfIs(w: nat, i: nat)
    ensures BitOf(w, i) <==> w / Pow2(i) % 2 == 1
  {
    if i > 0 {
      BitOfIs(w / 2, i - 1);
      DivTwice(w, Pow2(i - 1));
    }
  }

  lemma DivTwice(w: nat, p: nat)
    requires p > 0
    ensures w / 2 / p == w / (2 * p)
  {
    hide Quot;
    var q := Quot(w / 2, p);
    QuotBound(w / 2, p);
    assert q * (2 * p) == 2 * (q * p);
    QuotIs(w, 2 * p, q);
    QuotDiv(w / 2, p);
    QuotDiv(w, 2 * p);
  }

  /** Setting or clearing one of the low n bits keeps the word n bits wide. */
  lemma {:induction false} BitWidth(w: nat, i: nat, n: nat)
    requires i < n && w < Pow2(n)
    ensures SetBit(w, i) < Pow2(n) && ClearBit(w, i) < Pow2(n)
  {
    if i > 0 {
      BitWidth(w / 2, i - 1, n - 1);
    }
  }

  /** Clearing a bit that was clear before it was set gives the word back. */
  lemma {:induction false} ClearSet(w: nat, i: nat)
    requires !BitOf(w, i)
    ensures ClearBit(SetBit(w, i), i) == w
  {
    if i > 0 {
      ClearSet(w / 2, i - 1);
    }
  }

  /** Every one of the low n bits of the all-ones word is set ... */
  lemma {:induction false} FullWord(n: nat, i: nat)
    requires i < n
    ensures BitOf(Pow2(n) - 1, i)
  {
    if i > 0 {
      FullWord(n - 1, i - 1);
      assert (Pow2(n) - 1) / 2 == Pow2(n - 1) - 1;
    }
  }

  /** ... and any other word has a clear bit among them. */
  lemma {:induction false} ClearBitExists(w: nat, n: nat) returns (i: nat)
    requires w < Pow2(n) - 1
    ensures i < n && !BitOf(w, i)
  {
    if w % 2 == 0 {
      i := 0;
    } else {
      i := ClearBitExists(w / 2, n - 1);
      i := i + 1;
    }
  }

  lemma Pow2Values()
    ensures Pow2(8) == 0x100 && Pow2(32) == 0x1_0000_0000
  {
    assert Pow2(4) == 16;
    assert Pow2(8) == 0x100;
    assert Pow2(12) == 0x1000;
    assert Pow2(16) == 0x1_0000;
    assert Pow2(20) == 0x10_0000;
    assert Pow2(24) == 0x100_0000;
    assert Pow2(28) == 0x1000_0000;
  }

  lemma {:induction false} ZeroBits(i: nat)
    ensures !BitOf(0, i)
  {
    if i > 0 {
      ZeroBits(i - 1);
    }
  }

  lemma {:induction false} BitsBelow(w: nat, n: nat)
    requires w < Pow2(n)
    ensures !BitOf(w, n)
  {
    if n > 0 {
      BitsBelow(w / 2, n - 1);
    }
  }

  /** Bits below a multiple of 1 << n are those of the rest. */
  lemma {:induction false} BitBelow(f: nat, r: nat, n: nat, k: nat)
    requires k < n
    ensures BitOf(f * Pow2(n) + r, k) <==> BitOf(r, k)
  {
    var p := f * Pow2(n - 1);
    assert f * Pow2(n) + r == 2 * p + r;
    Halves(p, r);
    if k > 0 {
      BitBelow(f, r / 2, n - 1, k - 1);
    }
  }

  lemma Halves(p: nat, r: nat)
    ensures (2 * p + r) / 2 == p + r / 2 && (2 * p + r) % 2 == r % 2
  {
  }
}
