/**
  The symbols in use, sorted by frequency, and the sums of their frequencies.
 */
module UsedSymbols {
  import opened RadixSort
  import opened MergeTree
  import opened OptimalCode
  import opened MinRedundancy

  // -------------------------------------------------------- the used symbols

  /** The used symbols with their frequencies, in symbol order. */
  ghost function UsedSyms(counts: seq<nat>, i: nat): (r: seq<SymFreq>)
    requires i <= |counts|
    ensures |r| <= i
  {
    if i == 0 then []
    else UsedSyms(counts, i - 1) + (if counts[i - 1] > 0 then [SymFreq(counts[i - 1], i - 1)] else [])
  }

  ghost function Total(counts: seq<nat>): nat
  {
    if counts == [] then 0 else Total(counts[..|counts| - 1]) + counts[|counts| - 1]
  }

  lemma {:induction false} UsedSymsAre(counts: seq<nat>, i: nat, x: SymFreq)
    requires i <= |counts|
    ensures x in UsedSyms(counts, i) <==> x.sym < i && x.key == counts[x.sym] > 0
  {
    if i == 0 {
    } else {
      UsedSymsAre(counts, i - 1, x);
    }
  }

  lemma {:induction false} UsedSymsRise(counts: seq<nat>, i: nat, a: nat, b: nat)
    requires i <= |counts| && a < b < |UsedSyms(counts, i)|
    ensures UsedSyms(counts, i)[a].sym < UsedSyms(counts, i)[b].sym
  {
    if i == 0 {
    } else {
      var u := UsedSyms(counts, i - 1);
      if b < |u| {
        UsedSymsRise(counts, i - 1, a, b);
      } else {
        UsedSymsAre(counts, i - 1, u[a]);
      }
    }
  }

  lemma UsedSymsFacts(counts: seq<nat>, i: nat)
    requires i <= |counts|
    ensures forall x :: x in UsedSyms(counts, i) <==> x.sym < i && x.key == counts[x.sym] > 0
    ensures forall a, b ::
      0 <= a < b < |UsedSyms(counts, i)| ==> UsedSyms(counts, i)[a].sym < UsedSyms(counts, i)[b].sym
  {
    hide UsedSyms;
    var u := UsedSyms(counts, i);
    forall x ensures x in u <==> x.sym < i && x.key == counts[x.sym] > 0 {
      UsedSymsAre(counts, i, x);
    }
    forall a, b | 0 <= a < b < |u| ensures u[a].sym < u[b].sym {
      UsedSymsRise(counts, i, a, b);
    }
  }

  ghost predicate DistinctSyms(p: seq<SymFreq>)
  {
    forall a, b :: 0 <= a < b < |p| ==> p[a].sym != p[b].sym
  }

  lemma {:induction false} DistinctOnce(p: seq<SymFreq>, x: SymFreq)
    requires DistinctSyms(p)
    ensures multiset(p)[x] <= 1
  {
    if p == [] {
    } else {
      var n := |p| - 1;
      DistinctOnce(p[..n], x);
      assert p == p[..n] + [p[n]];
      assert forall a :: 0 <= a < n ==> p[a] != p[n];
    }
  }

  lemma TwiceInMultiset(p: seq<SymFreq>, a: nat, b: nat)
    requires a < b < |p| && p[a] == p[b]
    ensures multiset(p)[p[a]] >= 2
  {
    assert p == p[..a] + [p[a]] + p[a + 1..b] + [p[b]] + p[b + 1..];
  }

  /** A sorted copy of the used symbols still has each of them once. */
  ghost predicate SortedUsed(counts: seq<nat>, p: seq<SymFreq>)
  {
    && DistinctSyms(p)
    && (forall a :: 0 <= a < |p| ==> p[a].sym < |counts| && p[a].key == counts[p[a].sym] > 0)
    && (forall s :: 0 <= s < |counts| && counts[s] > 0 ==> exists a :: 0 <= a < |p| && p[a].sym == s)
    && SortedByKey(p)
  }

  lemma PermutedDistinct(counts: seq<nat>, u: seq<SymFreq>, p: seq<SymFreq>)
    requires multiset(p) == multiset(u) && DistinctSyms(u)
    requires forall a, b :: 0 <= a < |p| && 0 <= b < |p| && p[a].sym == p[b].sym ==> p[a] == p[b]
    ensures DistinctSyms(p)
  {
    forall a, b | 0 <= a < b < |p| ensures p[a].sym != p[b].sym {
      if p[a].sym == p[b].sym {
        TwiceInMultiset(p, a, b);
        DistinctOnce(u, p[a]);
        assert false;
      }
    }
  }

  lemma PermutedUsed(counts: seq<nat>, p: seq<SymFreq>)
    requires multiset(p) == multiset(UsedSyms(counts, |counts|)) && SortedByKey(p)
    ensures SortedUsed(counts, p)
  {
    hide SortedByKey, UsedSyms;
    var u := UsedSyms(counts, |counts|);
    UsedSymsFacts(counts, |counts|);
    forall a | 0 <= a < |p| ensures p[a] in u { assert p[a] in multiset(p); }
    PermutedDistinct(counts, u, p);
    forall s | 0 <= s < |counts| && counts[s] > 0 ensures exists a :: 0 <= a < |p| && p[a].sym == s {
      var x := SymFreq(counts[s], s);
      assert x in u;
      assert x in multiset(u);
      assert x in p;
      var a :| 0 <= a < |p| && p[a] == x;
    }
  }

  method CollectUsed(counts: array<nat>, syms: array<SymFreq>) returns (n: nat)
    requires syms.Length >= counts.Length
    modifies syms
    ensures n <= counts.Length && syms[..n] == UsedSyms(counts[..], counts.Length)
  {
    n := 0;
    var i := 0;
    while i < counts.Length
      invariant 0 <= n <= i <= counts.Length && syms[..n] == UsedSyms(counts[..], i)
    {
      if counts[i] != 0 {
        syms[n] := SymFreq(counts[i], i);
        assert syms[..n] == UsedSyms(counts[..], i);
        assert syms[..n + 1] == syms[..n] + [syms[n]];
        n := n + 1;
      }
      i := i + 1;
    }
  }

  lemma {:induction false} ZeroTotal(counts: seq<nat>)
    requires forall s :: 0 <= s < |counts| ==> counts[s] == 0
    ensures Total(counts) == 0
  {
    if counts == [] {
    } else {
      ZeroTotal(counts[..|counts| - 1]);
    }
  }

  lemma {:induction false} TotalUpdate(counts: seq<nat>, s: nat, v: nat)
    requires s < |counts|
    ensures Total(counts[s := v]) == Total(counts) - counts[s] + v
  {
    var n := |counts| - 1;
    var c := counts[s := v];
    if s == n {
      assert c[..n] == counts[..n];
    } else {
      TotalUpdate(counts[..n], s, v);
      assert c[..n] == counts[..n][s := v];
    }
  }

  // ----------------------------------------------------- sums of frequencies

  ghost function SumKeys(p: seq<SymFreq>): nat
  {
    if p == [] then 0 else SumKeys(p[..|p| - 1]) + p[|p| - 1].key
  }

  lemma {:induction false} SumKeysRemove(p: seq<SymFreq>, k: nat)
    requires k < |p|
    ensures SumKeys(p) == SumKeys(Remove(p, k)) + p[k].key
  {
    var n := |p| - 1;
    if k == n {
      assert Remove(p, k) == p[..n];
    } else {
      SumKeysRemove(p[..n], k);
      assert Remove(p, k)[..n - 1] == Remove(p[..n], k);
    }
  }

  lemma RemoveMultiset(p: seq<SymFreq>, k: nat)
    requires k < |p|
    ensures multiset(Remove(p, k)) == multiset(p) - multiset{p[k]}
  {
    assert p == p[..k] + [p[k]] + p[k + 1..];
    assert Remove(p, k) == p[..k] + p[k + 1..];
  }

  lemma {:induction false} SumKeysPermuted(p: seq<SymFreq>, u: seq<SymFreq>)
    requires multiset(p) == multiset(u)
    ensures SumKeys(p) == SumKeys(u)
    decreases |p|
  {
    if p == [] {
      assert |multiset(u)| == |u| && |multiset(p)| == |p|;
    } else {
      var n := |p| - 1;
      assert p == p[..n] + [p[n]];
      assert p[n] in multiset(u);
      var k :| 0 <= k < |u| && u[k] == p[n];
      SumKeysRemove(u, k);
      RemoveMultiset(u, k);
      RemoveMultiset(p, n);
      assert Remove(p, n) == p[..n];
      assert multiset(p[..n]) == multiset(p) - multiset{p[n]} == multiset(Remove(u, k));
      SumKeysPermuted(p[..n], Remove(u, k));
    }
  }

  lemma {:induction false} UsedSum(counts: seq<nat>, i: nat)
    requires i <= |counts|
    ensures SumKeys(UsedSyms(counts, i)) == Total(counts[..i])
  {
    if i == 0 {
    } else {
      UsedSum(counts, i - 1);
      assert counts[..i][..i - 1] == counts[..i - 1];
      assert Total(counts[..i]) == Total(counts[..i - 1]) + counts[i - 1];
      assert UsedSyms(counts, i - 1) + [] == UsedSyms(counts, i - 1);
      var u, x := UsedSyms(counts, i - 1), SymFreq(counts[i - 1], i - 1);
      assert (u + [x])[..|u|] == u;
    }
  }

  lemma {:induction false} PrefixIsSum(p: seq<SymFreq>, i: nat)
    requires i <= |p|
    ensures Prefix(Keys(p), i) == SumKeys(p[..i])
  {
    if i == 0 {
    } else {
      PrefixIsSum(p, i - 1);
      assert p[..i][..i - 1] == p[..i - 1];
    }
  }

  lemma {:induction false} KeyBelowSum(p: seq<SymFreq>, i: nat)
    requires i < |p|
    ensures p[i].key <= SumKeys(p)
  {
    if i == |p| - 1 {
    } else {
      KeyBelowSum(p[..|p| - 1], i);
    }
  }

  /** The sums the sort and the tree work with are those of the frequencies. */
  lemma UsedTotals(counts: seq<nat>)
    ensures SumKeys(UsedSyms(counts, |counts|)) == Total(counts)
    ensures forall i ::
      0 <= i < |UsedSyms(counts, |counts|)| ==> 1 <= UsedSyms(counts, |counts|)[i].key <= Total(counts)
  {
    var u := UsedSyms(counts, |counts|);
    UsedSum(counts, |counts|);
    assert counts[..|counts|] == counts;
    UsedSymsFacts(counts, |counts|);
    forall i | 0 <= i < |u| ensures 1 <= u[i].key <= Total(counts) {
      KeyBelowSum(u, i);
      assert u[i] in u;
    }
  }

  lemma SortedTotals(counts: seq<nat>, p: seq<SymFreq>)
    requires multiset(p) == multiset(UsedSyms(counts, |counts|))
    ensures Prefix(Keys(p), |p|) == Total(counts)
  {
    hide UsedSyms;
    UsedTotals(counts);
    SumKeysPermuted(p, UsedSyms(counts, |counts|));
    PrefixIsSum(p, |p|);
    assert p[..|p|] == p;
  }
}
