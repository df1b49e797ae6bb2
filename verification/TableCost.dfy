/**
  The cost of a table symbol by symbol, whatever the order they were sorted in,
  and how close to the best code the limited one is.
 */
module TableCost {
  import opened Bits
  import opened Canonical
  import opened RadixSort
  import opened MergeTree
  import opened OptimalCode
  import opened MinRedundancy
  import opened LengthLimit
  import opened LimitCost
  import opened UsedSymbols

  // ------------------------------------------------------ sums as plain totals

  ghost predicate SymsBelow(p: seq<SymFreq>, n: nat)
  {
    forall a :: 0 <= a < |p| ==> p[a].sym < n
  }

  /** The entries of `v` for the symbols of `p`. */
  ghost function At(p: seq<SymFreq>, v: seq<nat>): (r: seq<nat>)
    requires SymsBelow(p, |v|)
    ensures |r| == |p|
  {
    seq<nat>(|p|, a requires 0 <= a < |p| => v[p[a].sym])
  }

  lemma {:induction false} Gathered(p: seq<SymFreq>, v: seq<nat>)
    requires DistinctSyms(p) && SymsBelow(p, |v|)
    ensures Total(At(p, v)) <= Total(v)
    ensures (forall s :: 0 <= s < |v| && v[s] > 0 ==> exists a :: 0 <= a < |p| && p[a].sym == s) ==>
      Total(At(p, v)) == Total(v)
  {
    if p == [] {
      if forall s :: 0 <= s < |v| ==> v[s] == 0 { ZeroTotal(v); }
    } else {
      var n := |p| - 1;
      var s := p[n].sym;
      var v' := v[s := 0];
      Gathered(p[..n], v');
      TotalUpdate(v, s, 0);
      assert At(p, v)[..n] == At(p[..n], v');
      if forall k :: 0 <= k < |v| && v[k] > 0 ==> exists a :: 0 <= a < |p| && p[a].sym == k {
        forall k | 0 <= k < |v'| && v'[k] > 0 ensures exists a :: 0 <= a < n && p[..n][a].sym == k {
          var a :| 0 <= a < |p| && p[a].sym == k;
          assert p[..n][a].sym == k;
        }
      }
    }
  }

  ghost function Products(w: seq<nat>, l: seq<nat>): (r: seq<nat>)
    requires |w| == |l|
    ensures |r| == |w|
  {
    seq<nat>(|w|, i requires 0 <= i < |w| => w[i] * l[i])
  }

  lemma {:induction false} CostIsTotal(w: seq<nat>, l: seq<nat>)
    requires |w| == |l|
    ensures Cost(w, l) == Total(Products(w, l))
  {
    hide Cost;
    if w == [] {
      EmptyCost();
    } else {
      var n := |w| - 1;
      CostIsTotal(w[..n], l[..n]);
      CostAppend(w[..n], l[..n], w[n], l[n]);
      assert w == w[..n] + [w[n]] && l == l[..n] + [l[n]];
      assert Products(w, l)[..n] == Products(w[..n], l[..n]);
    }
  }

  /** Code space, in units of the longest word. */
  ghost function Spaces(l: seq<nat>): (r: seq<nat>)
    requires Between(l, MAX_LEN)
    ensures |r| == |l|
  {
    seq<nat>(|l|, i requires 0 <= i < |l| => Pow2(MAX_LEN - l[i]))
  }

  lemma {:induction false} KraftIsTotal(l: seq<nat>)
    requires Between(l, MAX_LEN)
    ensures KraftSum(l, MAX_LEN) == Total(Spaces(l))
  {
    hide KraftSum, Pow2;
    if l == [] {
      EmptyCost();
    } else {
      var n := |l| - 1;
      KraftIsTotal(l[..n]);
      KraftAppend(l[..n], MAX_LEN, l[n]);
      assert l == l[..n] + [l[n]];
      assert Spaces(l)[..n] == Spaces(l[..n]);
    }
  }

  ghost function Hits(l: seq<nat>, k: nat): (r: seq<nat>)
    ensures |r| == |l|
  {
    seq<nat>(|l|, i requires 0 <= i < |l| => if l[i] == k then 1 else 0)
  }

  lemma {:induction false} CountIsTotal(l: seq<nat>, k: nat)
    ensures Count(l, k) == Total(Hits(l, k))
  {
    if l == [] {
    } else {
      var n := |l| - 1;
      CountIsTotal(l[..n], k);
      assert Hits(l, k)[..n] == Hits(l[..n], k);
    }
  }

  // --------------------------------------------------- sizes in sorted order

  /** Sizes of the used symbols, and nothing for the others. */
  ghost predicate SizesFor(counts: seq<nat>, p: seq<SymFreq>, sizes: seq<nat>)
  {
    && |sizes| == |counts| && SortedUsed(counts, p)
    && forall s :: 0 <= s < |sizes| && counts[s] == 0 ==> sizes[s] == 0
  }

  lemma SortedCost(counts: seq<nat>, p: seq<SymFreq>, sizes: seq<nat>)
    requires |sizes| == |counts| && SortedUsed(counts, p)
    ensures SymsBelow(p, |sizes|) && Cost(counts, sizes) == Cost(Keys(p), At(p, sizes))
  {
    hide Cost, Total, SortedByKey;
    CostIsTotal(counts, sizes);
    CostIsTotal(Keys(p), At(p, sizes));
    assert At(p, Products(counts, sizes)) == Products(Keys(p), At(p, sizes));
    Gathered(p, Products(counts, sizes));
  }

  lemma SortedCount(counts: seq<nat>, p: seq<SymFreq>, sizes: seq<nat>, k: nat)
    requires SizesFor(counts, p, sizes) && k > 0
    ensures SymsBelow(p, |sizes|) && Count(sizes, k) == Count(At(p, sizes), k)
  {
    hide Count, Total, SortedByKey;
    CountIsTotal(sizes, k);
    CountIsTotal(At(p, sizes), k);
    assert At(p, Hits(sizes, k)) == Hits(At(p, sizes), k);
    Gathered(p, Hits(sizes, k));
  }

  lemma SortedFits(counts: seq<nat>, p: seq<SymFreq>, o: seq<nat>)
    requires |o| == |counts| && SortedUsed(counts, p) && Between(o, MAX_LEN) && Fits(o, MAX_LEN)
    ensures SymsBelow(p, |o|) && Fits(At(p, o), MAX_LEN)
  {
    hide KraftSum, Total, SortedByKey;
    KraftIsTotal(o);
    KraftIsTotal(At(p, o));
    assert At(p, Spaces(o)) == Spaces(At(p, o));
    Gathered(p, Spaces(o));
  }

  lemma LastAgrees(a: seq<nat>, b: seq<nat>)
    requires |a| == |b| > 0 && Falling(a) && Falling(b) && forall k :: Count(a, k) == Count(b, k)
    ensures a[|a| - 1] == b[|a| - 1]
  {
    hide Count;
    var n := |a| - 1;
    CountIn(a, n);
    CountIn(b, n);
    var i := FirstOf(b, a[n]);
    var j := FirstOf(a, b[n]);
    assert b[i] >= b[n] && a[j] >= a[n];
  }

  lemma FrontCount(a: seq<nat>, b: seq<nat>, k: nat)
    requires |a| == |b| > 0 && a[|a| - 1] == b[|a| - 1] && Count(a, k) == Count(b, k)
    ensures Count(a[..|a| - 1], k) == Count(b[..|a| - 1], k)
  {
    hide Count;
    var n := |a| - 1;
    CountStep(a, n, k);
    CountStep(b, n, k);
    assert a[..n + 1] == a && b[..n + 1] == b;
  }

  /** Falling lengths are determined by how many there are of each. */
  lemma {:induction false} FallingUnique(a: seq<nat>, b: seq<nat>)
    requires |a| == |b| && Falling(a) && Falling(b) && forall k :: Count(a, k) == Count(b, k)
    ensures a == b
  {
    hide Count;
    if a == [] {
    } else {
      var n := |a| - 1;
      LastAgrees(a, b);
      forall k ensures Count(a[..n], k) == Count(b[..n], k) {
        FrontCount(a, b, k);
      }
      FallingUnique(a[..n], b[..n]);
      assert a == a[..n] + [a[n]] && b == b[..n] + [b[n]];
    }
  }

  // --------------------------------------------------------------- the bound

  /** Lengths that some prefix code for `n` symbols has. */
  ghost predicate Rival(n: nat, o: seq<nat>)
  {
    |o| == n && Between(o, MAX_LEN) && Fits(o, MAX_LEN)
  }

  /** No prefix code for the frequencies is cheaper by more than |counts|/270
      bits for each time a symbol is used. */
  ghost predicate NearlyOptimal(counts: seq<nat>, sizes: seq<nat>)
  {
    |sizes| == |counts| &&
    forall o :: Rival(|counts|, o) ==>
      RATE * Cost(counts, sizes) <= RATE * Cost(counts, o) + 2 * |counts| * Total(counts)
  }

  /** What the program made of the sorted weights. */
  ghost predicate Limited(w: seq<nat>, t: seq<Merge>, u: seq<nat>, l: seq<nat>, cut: nat)
  {
    if |w| >= 2 then MinimalLengths(w, t, u) && Lengthened(Capped(u, MAX_LEN), l, MAX_LEN, cut)
    else |l| == |w| && forall i :: 0 <= i < |l| ==> l[i] == 1
  }

  lemma MinimalLen(w: seq<nat>, t: seq<Merge>, u: seq<nat>)
    requires MinimalLengths(w, t, u)
    ensures |u| == |w|
  {
  }

  lemma NotNegative(n: nat, t: nat)
    ensures 2 * n * t >= 0
  {
  }

  lemma LimitedNearly(w: seq<nat>, t: seq<Merge>, u: seq<nat>, l: seq<nat>, cut: nat, o: seq<nat>)
    requires Limited(w, t, u, l, cut) && |o| == |w| && Between(o, MAX_LEN) && Fits(o, MAX_LEN)
    ensures |l| == |w| && RATE * Cost(w, l) <= RATE * Cost(w, o) + 2 * |w| * Prefix(w, |w|)
  {
    hide KraftSum, Prefix, MinimalLengths, Lengthened;
    if |w| >= 2 {
      hide Cost;
      LimitedCost(w, t, u, l, cut);
      MinimalLen(w, t, u);
      CalculatedLengthsAreOptimal(w, t, u, o, MAX_LEN);
    } else {
      CostMono(w, l, o);
      NotNegative(|w|, Prefix(w, |w|));
    }
  }

  lemma More(a: nat, b: nat, t: nat)
    requires a <= b
    ensures 2 * a * t <= 2 * b * t
  {
    Times(t, 2 * a, 2 * b);
  }

  /** The sizes handed out are those of the limited list. */
  lemma HandedAreLimited(counts: seq<nat>, p: seq<SymFreq>, sizes: seq<nat>, l: seq<nat>, c: seq<int>)
    requires SizesFor(counts, p, sizes) && |l| == |p| && Falling(l) && Between(l, MAX_LEN)
    requires SymsBelow(p, |sizes|) && Falling(At(p, sizes)) && Between(At(p, sizes), MAX_LEN)
    requires CountsMatch(c, sizes, MAX_LEN) && CountsMatch(c, l, MAX_LEN)
    ensures At(p, sizes) == l
  {
    hide Count, SortedUsed, Falling;
    var m := At(p, sizes);
    forall k: nat ensures Count(m, k) == Count(l, k) {
      if 1 <= k <= MAX_LEN {
        SortedCount(counts, p, sizes, k);
      } else {
        NoneOfLength(m, k);
        NoneOfLength(l, k);
      }
    }
    FallingUnique(m, l);
  }

  lemma UsedFew(counts: seq<nat>, p: seq<SymFreq>)
    requires multiset(p) == multiset(UsedSyms(counts, |counts|))
    ensures |p| <= |counts|
  {
    assert |multiset(p)| == |p|;
    assert |multiset(UsedSyms(counts, |counts|))| == |UsedSyms(counts, |counts|)|;
  }

  lemma TableNearlyOptimal(counts: seq<nat>, p: seq<SymFreq>, sizes: seq<nat>, c: seq<int>,
                           t: seq<Merge>, u: seq<nat>, l: seq<nat>, cut: nat)
    requires SizesFor(counts, p, sizes) && multiset(p) == multiset(UsedSyms(counts, |counts|))
    requires SymsBelow(p, |sizes|) && Falling(At(p, sizes)) && Between(At(p, sizes), MAX_LEN)
    requires Limited(Keys(p), t, u, l, cut) && |l| == |p| && Falling(l) && Between(l, MAX_LEN)
    requires CountsMatch(c, sizes, MAX_LEN) && CountsMatch(c, l, MAX_LEN)
    ensures NearlyOptimal(counts, sizes)
  {
    hide Cost, KraftSum, Total, Limited, SortedUsed, Prefix, Falling, CountsMatch, UsedSyms, Keys;
    HandedAreLimited(counts, p, sizes, l, c);
    SortedCost(counts, p, sizes);
    SortedTotals(counts, p);
    UsedFew(counts, p);
    More(|p|, |counts|, Total(counts));
    forall o | Rival(|counts|, o)
      ensures RATE * Cost(counts, sizes) <= RATE * Cost(counts, o) + 2 * |counts| * Total(counts)
    {
      SortedFits(counts, p, o);
      SortedCost(counts, p, o);
      LimitedNearly(Keys(p), t, u, l, cut, At(p, o));
    }
  }
}
