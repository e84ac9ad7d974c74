/** The file allocation table as a function from clusters to clusters: chains, extension, freeing, the free-cluster search. */
module FatTable {

  const EOC: nat := 0x0FFFFFF8
  const LAST: nat := 0x0FFFFFFF

  /** cs follows the table from its first cluster to an end-of-chain mark. */
  predicate IsChain(fat: seq<nat>, cs: seq<nat>) {
    && |cs| > 0
    && (forall i | 0 <= i < |cs| :: 2 <= cs[i] < |fat|)
    && (forall i | 0 <= i < |cs| - 1 :: fat[cs[i]] == cs[i + 1])
    && fat[cs[|cs| - 1]] >= EOC
  }

  /** Entries are free (0), lead to a cluster, or end a chain. */
  predicate InRange(fat: seq<nat>) {
    |fat| <= EOC && forall c | 0 <= c < |fat| :: fat[c] < |fat| || fat[c] >= EOC
  }

  predicate NoDup(cs: seq<nat>) {
    forall i, j | 0 <= i < j < |cs| :: cs[i] != cs[j]
  }

  predicate Apart(a: seq<nat>, b: seq<nat>) {
    forall c | c in a :: c !in b
  }

  /** If positions i < j held the same cluster, so would all later pairs, up to one that ends and does not end. */
  lemma {:induction false} ChainStep(fat: seq<nat>, cs: seq<nat>, i: nat, j: nat)
    requires |fat| <= EOC && IsChain(fat, cs) && i < j < |cs| && cs[i] == cs[j]
    ensures false
    decreases |cs| - j
  {
    assert fat[cs[i]] == cs[i + 1] < EOC;
    if j + 1 < |cs| {
      ChainStep(fat, cs, i + 1, j + 1);
    }
  }

  /** A terminated chain is acyclic. */
  lemma ChainNoDup(fat: seq<nat>, cs: seq<nat>)
    requires |fat| <= EOC && IsChain(fat, cs)
    ensures NoDup(cs)
  {
    forall i, j | 0 <= i < j < |cs| ensures cs[i] != cs[j] {
      if cs[i] == cs[j] {
        ChainStep(fat, cs, i, j);
      }
    }
  }

  /** A cluster starts at most one chain. */
  lemma {:induction false} ChainUnique(fat: seq<nat>, a: seq<nat>, b: seq<nat>)
    requires |fat| <= EOC && IsChain(fat, a) && IsChain(fat, b) && a[0] == b[0]
    ensures a == b
    decreases |a|
  {
    assert |a| > 1 ==> fat[a[0]] == a[1] < EOC;
    assert |b| > 1 ==> fat[b[0]] == b[1] < EOC;
    if |a| > 1 {
      assert a == [a[0]] + a[1..] && b == [b[0]] + b[1..];
      ChainUnique(fat, a[1..], b[1..]);
    }
  }

  /** Clusters of a chain are not free. */
  lemma ChainUsed(fat: seq<nat>, cs: seq<nat>, c: nat)
    requires IsChain(fat, cs) && c in cs
    ensures c < |fat| && fat[c] != 0
  {
    var i :| 0 <= i < |cs| && cs[i] == c;
    if i < |cs| - 1 {
      assert cs[i + 1] >= 2;
    }
  }

  /** A chain depends on its own entries only. */
  lemma ChainFrame(fat: seq<nat>, g: seq<nat>, cs: seq<nat>)
    requires IsChain(fat, cs) && |g| == |fat| && forall c | c in cs :: c < |fat| ==> g[c] == fat[c]
    ensures IsChain(g, cs)
  {
    forall i | 0 <= i < |cs| ensures g[cs[i]] == fat[cs[i]] {
      assert cs[i] in cs;
    }
  }

  /** Appending a free cluster to a chain: mark it as the end, then link the old end to it. */
  lemma Extend(fat: seq<nat>, cs: seq<nat>, c: nat)
    requires |fat| <= EOC && IsChain(fat, cs) && 2 <= c < |fat| && fat[c] == 0
    ensures c !in cs && IsChain(fat[c := LAST][cs[|cs| - 1] := c], cs + [c])
  {
    if c in cs {
      ChainUsed(fat, cs, c);
    }
    ChainNoDup(fat, cs);
    var g := fat[c := LAST][cs[|cs| - 1] := c];
    var r := cs + [c];
    forall i | 0 <= i < |r| - 1 ensures g[r[i]] == r[i + 1] {
      assert r[i] == cs[i];
      if i < |cs| - 1 {
        assert fat[cs[i]] == cs[i + 1] && cs[i] in cs;
      }
    }
  }

  // ----- the search for a free cluster -----

  /** The least cluster >= from with a zero entry, or 0. */
  function FindFree(fat: seq<nat>, from: nat): (c: nat)
    requires from <= |fat|
    ensures c != 0 ==> from <= c < |fat| && fat[c] == 0
    decreases |fat| - from
  {
    if from == |fat| then 0 else if fat[from] == 0 then from else FindFree(fat, from + 1)
  }

  lemma {:induction false} FindFreeLeast(fat: seq<nat>, from: nat, c: nat)
    requires 0 < from <= c < |fat| && fat[c] == 0
    ensures 0 < FindFree(fat, from) <= c
    decreases |fat| - from
  {
    if fat[from] != 0 {
      FindFreeLeast(fat, from + 1, c);
    }
  }

  /** 0 exactly when no entry from cluster 2 on is free. */
  lemma FindFreeIff(fat: seq<nat>)
    requires |fat| >= 2
    ensures FindFree(fat, 2) == 0 <==> forall c | 2 <= c < |fat| :: fat[c] != 0
  {
    if c :| 2 <= c < |fat| && fat[c] == 0 {
      FindFreeLeast(fat, 2, c);
    }
  }

  // ----- freeing a chain -----

  function NonZero(fat: seq<nat>): nat {
    if fat == [] then 0 else NonZero(fat[..|fat| - 1]) + (if fat[|fat| - 1] == 0 then 0 else 1)
  }

  lemma {:induction false} NonZeroClear(fat: seq<nat>, c: nat)
    requires c < |fat|
    ensures NonZero(fat[c := 0]) == NonZero(fat) - (if fat[c] == 0 then 0 else 1)
  {
    if c == |fat| - 1 {
      assert fat[c := 0][..c] == fat[..c];
    } else {
      assert fat[c := 0][..|fat| - 1] == fat[..|fat| - 1][c := 0];
      NonZeroClear(fat[..|fat| - 1], c);
    }
  }

  /** Follow the table from c and zero every entry passed, until a free entry or an end mark. */
  function FreeChain(fat: seq<nat>, c: nat): (r: seq<nat>)
    requires InRange(fat) && (c < |fat| || c >= EOC)
    ensures |r| == |fat|
    decreases NonZero(fat), if 2 <= c < EOC then 1 else 0
  {
    if 2 <= c < EOC then
      NonZeroClear(fat, c);
      FreeChain(fat[c := 0], fat[c])
    else fat
  }

  /** Whatever the table, cyclic or not, the walk only clears entries. */
  lemma {:induction false} FreeChainClears(fat: seq<nat>, c: nat, d: nat)
    requires InRange(fat) && (c < |fat| || c >= EOC) && d < |fat|
    ensures FreeChain(fat, c)[d] == fat[d] || FreeChain(fat, c)[d] == 0
    decreases NonZero(fat), if 2 <= c < EOC then 1 else 0
  {
    if 2 <= c < EOC {
      NonZeroClear(fat, c);
      FreeChainClears(fat[c := 0], fat[c], d);
    }
  }

  /** On a chain it zeroes exactly the chain's entries. */
  lemma {:induction false} FreeChainExact(fat: seq<nat>, cs: seq<nat>, d: nat)
    requires InRange(fat) && IsChain(fat, cs) && d < |fat|
    ensures FreeChain(fat, cs[0])[d] == if d in cs then 0 else fat[d]
    decreases |cs|
  {
    ChainNoDup(fat, cs);
    var g := fat[cs[0] := 0];
    if |cs| > 1 {
      var t := cs[1..];
      forall c | c in t ensures c != cs[0] {
        var i :| 0 <= i < |t| && t[i] == c;
        assert cs[i + 1] == c;
      }
      assert IsChain(fat, t);
      ChainFrame(fat, g, t);
      FreeChainExact(g, t, d);
      assert cs == [cs[0]] + t;
      assert FreeChain(fat, cs[0]) == FreeChain(g, fat[cs[0]]);
    } else {
      assert FreeChain(fat, cs[0]) == FreeChain(g, fat[cs[0]]) == g;
      assert d in cs <==> d == cs[0];
    }
  }

  /** Freeing one chain leaves every chain apart from it. */
  lemma FreeChainFrame(fat: seq<nat>, cs: seq<nat>, ds: seq<nat>)
    requires InRange(fat) && IsChain(fat, cs) && IsChain(fat, ds) && Apart(cs, ds)
    ensures IsChain(FreeChain(fat, cs[0]), ds)
  {
    var g := FreeChain(fat, cs[0]);
    forall c | c in ds ensures c < |fat| && g[c] == fat[c] {
      ChainUsed(fat, ds, c);
      FreeChainExact(fat, cs, c);
    }
    ChainFrame(fat, g, ds);
  }
}
