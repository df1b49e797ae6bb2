/**
  From symbol frequencies to code lengths and reversed code words.
 */
module HuffmanTable {
  import opened Bits
  import opened Canonical
  import opened RadixSort
  import opened MergeTree
  import opened OptimalCode
  import opened MinRedundancy
  import opened LengthLimit
  import opened UsedSymbols
  import opened TableCost

  // ------------------------------------------------- assigning the code words

  /** Every used symbol carries its code word, first bit lowest. */
  ghost predicate CodesFor(sizes: seq<nat>, codes: seq<nat>)
  {
    |codes| == |sizes| &&
    forall i :: 0 <= i < |sizes| && sizes[i] > 0 ==>
      codes[i] < Pow2(sizes[i]) && ToBits(codes[i], sizes[i]) == CodeBits(sizes, i)
  }

  /** The low `size` bits of `code` in reverse order. */
  method ReverseBits(code0: nat, size: nat) returns (rev: nat)
    ensures ToBits(rev, size) == MsbBits(code0, size) && rev < Pow2(size)
  {
    rev := 0;
    var l, code := size, code0;
    while l > 0
      invariant 0 <= l <= size && rev < Pow2(size - l)
      invariant MsbBits(code, l) + ToBits(rev, size - l) == MsbBits(code0, size)
    {
      ghost var k := size - l;
      ghost var old_rev := rev;
      rev := rev * 2 + code % 2;
      assert ToBits(rev, k + 1) == [code % 2 == 1] + ToBits(old_rev, k);
      Assoc(MsbBits(code / 2, l - 1), [code % 2 == 1], ToBits(old_rev, k));
      code := code / 2;
      l := l - 1;
    }
  }

  /** next_code[l]: the first code word of each length. */
  method FirstCodes(c: array<int>, limit: nat, ghost sizes: seq<nat>) returns (next: array<nat>)
    requires 1 <= limit < c.Length <= MAX_SUPPORTED + 1 && CountsMatch(c[..], sizes, limit)
    ensures fresh(next) && next.Length == MAX_SUPPORTED + 1
    ensures forall l :: 1 <= l <= limit ==> next[l] == NextCode(sizes, l)
  {
    next := new nat[MAX_SUPPORTED + 1](_ => 0);
    var j, i := 0, 2;
    while i <= limit
      invariant 2 <= i && (i == 2 || i <= limit + 1) && j == NextCode(sizes, i - 1)
      invariant forall l :: 1 <= l < i && l <= limit ==> next[l] == NextCode(sizes, l)
    {
      j := (j + c[i - 1]) * 2;
      next[i] := j;
      i := i + 1;
    }
  }

  lemma NoneBefore(s: seq<nat>)
    ensures forall l: nat :: Count(s[..0], l) == 0
  {
  }

  lemma CodeWord(s: seq<nat>, i: nat)
    requires i < |s|
    ensures CodeBits(s, i) == MsbBits(NextCode(s, s[i]) + Count(s[..i], s[i]), s[i])
  {
  }

  /** The last loop: canonical codes in symbol order, bits reversed. */
  method AssignCodes(c: array<int>, limit: nat, sizes: array<nat>, codes: array<nat>)
    requires 1 <= limit < c.Length <= MAX_SUPPORTED + 1 && CountsMatch(c[..], sizes[..], limit)
    requires codes.Length == sizes.Length && codes != sizes
    requires forall i :: 0 <= i < sizes.Length ==> sizes[i] <= limit
    modifies codes
    ensures CodesFor(sizes[..], codes[..])
  {
    hide Count, NextCode, CodeBits, ToBits, Pow2;
    ghost var s := sizes[..];
    NoneBefore(s);
    var next := FirstCodes(c, limit, s);
    var i := 0;
    while i < sizes.Length
      invariant 0 <= i <= sizes.Length && sizes[..] == s
      invariant forall l :: 1 <= l <= limit ==> next[l] == NextCode(s, l) + Count(s[..i], l)
      invariant forall k :: 0 <= k < i && s[k] > 0 ==>
        codes[k] < Pow2(s[k]) && ToBits(codes[k], s[k]) == CodeBits(s, k)
    {
      var size := sizes[i];
      forall l ensures Count(s[..i + 1], l) == Count(s[..i], l) + (if s[i] == l then 1 else 0) { CountStep(s, i, l); }
      if size != 0 {
        var code := next[size];
        next[size] := next[size] + 1;
        CodeWord(s, i);
        codes[i] := ReverseBits(code, size);
      }
      i := i + 1;
    }
  }

  // ------------------------------------------------ lengths by sorted position

  /** num_codes after the minimum-redundancy pass. */
  method CountLengths(a: array<SymFreq>, n: nat) returns (c: array<int>)
    requires n <= a.Length && forall i :: 0 <= i < n ==> a[i].key <= MAX_SUPPORTED
    ensures fresh(c) && c[..] == Counts(Keys(a[..n]))
  {
    c := new int[MAX_SUPPORTED + 1](_ => 0);
    var i := 0;
    assert Keys(a[..0]) == [];
    while i < n
      invariant 0 <= i <= n && c.Length == MAX_SUPPORTED + 1
      invariant forall k :: 0 <= k <= MAX_SUPPORTED ==> c[k] == Count(Keys(a[..i]), k)
    {
      c[a[i].key] := c[a[i].key] + 1;
      assert Keys(a[..i + 1])[..i] == Keys(a[..i]);
      i := i + 1;
    }
  }

  // ------------------------------------------- lengths back to their symbols

  /** Sizes while they are handed out from the most frequent symbol on: the
      symbols from position `j` up have theirs, none longer than `i`. */
  ghost predicate Handed(counts: seq<nat>, p: seq<SymFreq>, sizes: seq<nat>, j: nat, i: nat)
  {
    && |sizes| == |counts| && j <= |p| && SortedUsed(counts, p)
    && (forall s :: 0 <= s < |sizes| ==> sizes[s] <= i)
    && (forall s :: 0 <= s < |sizes| && counts[s] == 0 ==> sizes[s] == 0)
    && (forall a :: 0 <= a < j ==> sizes[p[a].sym] == 0)
    && (forall a :: j <= a < |p| ==> sizes[p[a].sym] >= 1)
    && (forall a, b :: j <= a <= b < |p| ==> sizes[p[a].sym] >= sizes[p[b].sym])
  }

  lemma HandStart(counts: seq<nat>, p: seq<SymFreq>, sizes: seq<nat>)
    requires SortedUsed(counts, p) && |sizes| == |counts| && forall i :: 0 <= i < |sizes| ==> sizes[i] == 0
    ensures Handed(counts, p, sizes, |p|, 0)
  {
  }

  /** No other used symbol is that of entry `j`. */
  lemma OnlySym(counts: seq<nat>, p: seq<SymFreq>, j: nat)
    requires SortedUsed(counts, p) && j < |p|
    ensures p[j].sym < |counts| && counts[p[j].sym] > 0
    ensures forall a :: 0 <= a < |p| && a != j ==> p[a].sym < |counts| && p[a].sym != p[j].sym
  {
    hide SortedByKey;
  }

  lemma HandNext(counts: seq<nat>, p: seq<SymFreq>, sizes: seq<nat>, j: nat, i: nat)
    requires Handed(counts, p, sizes, j, i) && 0 < j && i >= 1
    ensures p[j - 1].sym < |sizes| && Handed(counts, p, sizes[p[j - 1].sym := i], j - 1, i)
  {
    hide SortedUsed;
    OnlySym(counts, p, j - 1);
  }

  lemma NotYet(counts: seq<nat>, p: seq<SymFreq>, sizes: seq<nat>, j: nat, i: nat)
    requires Handed(counts, p, sizes, j, i) && 0 < j
    ensures j <= |p| && p[j - 1].sym < |sizes| && sizes[p[j - 1].sym] == 0
  {
    hide SortedByKey;
  }

  lemma HandOne(counts: seq<nat>, p: seq<SymFreq>, sizes: seq<nat>, j: nat, i: nat)
    requires Handed(counts, p, sizes, j, i) && 0 < j && i >= 1
    ensures p[j - 1].sym < |sizes|
    ensures var s' := sizes[p[j - 1].sym := i];
            && Handed(counts, p, s', j - 1, i)
            && Count(s', i) == Count(sizes, i) + 1
            && forall k :: 1 <= k < i ==> Count(s', k) == Count(sizes, k)
  {
    hide Count, Handed;
    HandNext(counts, p, sizes, j, i);
    NotYet(counts, p, sizes, j, i);
    var k := p[j - 1].sym;
    forall l ensures Count(sizes[k := i], l) == Count(sizes, l) - (if sizes[k] == l then 1 else 0)
      + (if i == l then 1 else 0) {
      CountUpdate(sizes, k, i, l);
    }
  }

  method HandLevel(c: array<int>, i: nat, p: array<SymFreq>, n: nat, j0: nat, sizes: array<nat>,
                   ghost counts: seq<nat>, ghost q: seq<SymFreq>)
    returns (j: nat)
    requires 1 <= i < c.Length && n <= p.Length && 0 <= c[i] <= j0 <= n && sizes.Length == |counts|
    requires SameSyms(p[..n], q) && Handed(counts, q, sizes[..], j0, i - 1)
    requires Count(sizes[..], i) == 0 && forall k :: 1 <= k < i ==> Count(sizes[..], k) == c[k]
    modifies sizes
    ensures j == j0 - c[i] && Handed(counts, q, sizes[..], j, i)
    ensures forall k :: 1 <= k <= i ==> Count(sizes[..], k) == c[k]
  {
    hide SortedUsed, Count;
    ghost var want := c[..];
    j := j0;
    var l := c[i];
    while l > 0
      invariant 0 <= l <= want[i] && j == j0 - (want[i] - l) && c[..] == want
      invariant Handed(counts, q, sizes[..], j, i)
      invariant Count(sizes[..], i) == want[i] - l && forall k :: 1 <= k < i ==> Count(sizes[..], k) == want[k]
    {
      j := j - 1;
      ghost var s := sizes[..];
      HandOne(counts, q, s, j + 1, i);
      sizes[p[j].sym] := i;
      assert sizes[..] == s[p[j].sym := i];
      l := l - 1;
    }
  }

  method HandOut(c: array<int>, limit: nat, p: array<SymFreq>, n: nat, sizes: array<nat>,
                 ghost counts: seq<nat>, ghost q: seq<SymFreq>)
    requires limit < c.Length && n <= p.Length && NonNeg(c[..]) && Words(c[..], 0, limit) == n
    requires SortedUsed(counts, q) && SameSyms(p[..n], q) && sizes.Length == |counts|
    requires forall i :: 0 <= i < sizes.Length ==> sizes[i] == 0
    modifies sizes
    ensures Handed(counts, q, sizes[..], 0, limit) && CountsMatch(c[..], sizes[..], limit)
  {
    hide SortedUsed, Count;
    ghost var c0 := c[..];
    HandStart(counts, q, sizes[..]);
    var i, j := 1, n;
    while i <= limit
      invariant 1 <= i <= limit + 1 && 0 <= j <= n && j == Words(c0, i - 1, limit) && c[..] == c0
      invariant Handed(counts, q, sizes[..], j, i - 1)
      invariant forall k :: 1 <= k < i ==> Count(sizes[..], k) == c0[k]
    {
      WordsSplit(c0, i - 1, i, limit);
      assert Words(c0, i - 1, i) == c0[i];
      WordsNonNeg(c0, i, limit);
      NoneOfLength(sizes[..], i);
      j := HandLevel(c, i, p, n, j, sizes, counts, q);
      i := i + 1;
    }
  }

  // -------------------------------------------------------------- the table

  /** What the compressor needs of a table built from `counts`. */
  ghost predicate GoodSizes(counts: seq<nat>, sizes: seq<nat>, limit: nat)
  {
    && |sizes| == |counts| && ValidCode(sizes)
    && (forall s :: 0 <= s < |sizes| ==> sizes[s] <= limit && (sizes[s] > 0 <==> counts[s] > 0))
    && (forall s, u :: 0 <= s < |sizes| && 0 <= u < |sizes| && counts[s] > counts[u] > 0 ==> sizes[s] <= sizes[u])
  }

  lemma HandedSizes(counts: seq<nat>, p: seq<SymFreq>, sizes: seq<nat>, limit: nat)
    requires Handed(counts, p, sizes, 0, limit) && ValidCode(sizes)
    ensures GoodSizes(counts, sizes, limit)
  {
    forall s | 0 <= s < |sizes| && counts[s] > 0 ensures sizes[s] > 0 {
      var a :| 0 <= a < |p| && p[a].sym == s;
    }
    forall s, u | 0 <= s < |sizes| && 0 <= u < |sizes| && counts[s] > counts[u] > 0 ensures sizes[s] <= sizes[u] {
      var a :| 0 <= a < |p| && p[a].sym == s;
      var b :| 0 <= b < |p| && p[b].sym == u;
      assert p[a].key > p[b].key;
      assert b <= a;
    }
  }

  lemma {:induction false} EndStays(f: seq<nat>, m: nat, l: nat)
    requires m <= l && (forall i :: 0 <= i < |f| ==> f[i] <= m) && End(f, m) == Pow2(m)
    ensures End(f, l) == Pow2(l)
    decreases l - m
  {
    if m == l {
    } else {
      EndStays(f, m, l - 1);
      NoneOfLength(f, l);
    }
  }

  lemma CompleteSizes(c: seq<int>, sizes: seq<nat>, limit: nat)
    requires limit <= MAX_LEN && CountsMatch(c, sizes, limit) && Used(c, limit) == Pow2(limit)
    requires forall i :: 0 <= i < |sizes| ==> sizes[i] <= limit
    ensures Complete(sizes)
  {
    UsedIsEnd(c, sizes, limit, limit);
    EndStays(sizes, limit, MAX_LEN);
  }

  // ------------------------------------------------------------ the program

  /** Kraft and word counts of the calculated lengths, as the limiter wants them. */
  lemma LengthCounts(w: seq<nat>, t: seq<Merge>, l: seq<nat>)
    requires MinimalLengths(w, t, l)
    ensures Used(Counts(l), MAX_SUPPORTED) == Pow2(MAX_SUPPORTED) && Words(Counts(l), 0, MAX_SUPPORTED) == |l|
  {
    hide Counts, KraftSum, Cost, IsTree;
    WordsAll(l);
    KraftIsEnd(l, MAX_SUPPORTED);
    CountsOwn(l);
    UsedIsEnd(Counts(l), l, MAX_SUPPORTED, MAX_SUPPORTED);
  }

  lemma {:induction false} NoneAbove(c: seq<int>, a: nat, b: nat)
    requires a <= b < |c| && forall k :: a < k <= b ==> c[k] == 0
    ensures Words(c, a, b) == 0
  {
    if a == b {
    } else {
      NoneAbove(c, a, b - 1);
    }
  }

  lemma FewWords(l: seq<nat>, limit: nat)
    requires (l == [] || l == [1]) && 1 <= limit <= MAX_SUPPORTED
    ensures Words(Counts(l), 0, limit) == |l|
    ensures Counts(l)[1] == |l| && forall k :: 2 <= k <= limit ==> Counts(l)[k] == 0
  {
    if l == [] {
      NoShortWords(Counts(l), limit);
    } else {
      assert l[..0] == [];
      assert Words(Counts(l), 0, 1) == 1;
      WordsSplit(Counts(l), 0, 1, limit);
      NoneAbove(Counts(l), 1, limit);
    }
  }

  /** The calculated lengths and their counts, as the limiter wants them. */
  lemma Calculated(w: seq<nat>, t: seq<Merge>, u: seq<nat>, limit: nat)
    requires if |w| >= 2 then MinimalLengths(w, t, u) else |u| == |w| && (u == [] || u == [1])
    requires 1 <= limit <= MAX_SUPPORTED
    ensures |u| == |w| && Falling(u) && Between(u, MAX_SUPPORTED) && NonNeg(Counts(u))
      && CountsMatch(Counts(u), u, limit)
    ensures forall i :: 0 <= i < |u| ==> u[i] <= MAX_SUPPORTED
    ensures |w| >= 2 ==>
      Used(Counts(u), MAX_SUPPORTED) == Pow2(MAX_SUPPORTED) && Words(Counts(u), 0, MAX_SUPPORTED) == |u|
    ensures |w| <= 1 ==> Words(Counts(u), 0, limit) == |u| && Between(u, limit)
    ensures |w| <= 1 ==> Counts(u)[1] == |u| && forall k :: 2 <= k <= limit ==> Counts(u)[k] == 0
  {
    CountsOwn(u);
    hide Counts, Used, Words, KraftSum, Cost, IsTree, Share, Prefix, Pow2;
    if |w| >= 2 { LengthCounts(w, t, u); } else { FewWords(u, limit); }
  }

  lemma LengthenedMeans(u: seq<nat>, l: seq<nat>, max: nat, cut: nat)
    requires Lengthened(u, l, max, cut)
    ensures |l| == |u| && Falling(l) && Between(l, max)
  {
  }

  lemma LimitedMeans(w: seq<nat>, t: seq<Merge>, u: seq<nat>, l: seq<nat>, cut: nat, limit: nat)
    requires if |w| >= 2 then MinimalLengths(w, t, u) && Lengthened(Capped(u, limit), l, limit, cut)
             else l == u && |u| == |w| && (u == [] || u == [1])
    requires 1 <= limit <= MAX_SUPPORTED
    ensures |l| == |w| && Falling(l) && Between(l, limit)
    ensures limit == MAX_LEN ==> Limited(w, t, u, l, cut)
  {
    hide MinimalLengths, Lengthened;
    if |w| >= 2 {
      MinimalLen(w, t, u);
      LengthenedMeans(Capped(u, limit), l, limit, cut);
    }
  }

  /** Calculated and limited word counts of the used symbols. */
  method LimitedCounts(p: array<SymFreq>, n: nat, limit: nat)
    returns (c: array<int>, ghost t: seq<Merge>, ghost u: seq<nat>, ghost lens: seq<nat>, ghost cut: nat)
    requires n <= p.Length && n <= Pow2(limit) && 1 <= limit <= MAX_LEN && n < 65536
    requires SortedByKey(p[..n]) && (forall i :: 0 <= i < n ==> p[i].key >= 1) && Prefix(Keys(p[..n]), n) < 65536
    modifies p
    ensures fresh(c) && c.Length == MAX_SUPPORTED + 1 && NonNeg(c[..])
    ensures Words(c[..], 0, limit) == n && (n >= 2 ==> Used(c[..], limit) == Pow2(limit))
    ensures n == 0 ==> forall l :: 1 <= l <= limit ==> c[l] == 0
    ensures n == 1 ==> c[1] == 1 && forall l :: 2 <= l <= limit ==> c[l] == 0
    ensures SameSyms(p[..n], old(p[..n]))
    ensures |lens| == n && Falling(lens) && Between(lens, limit) && CountsMatch(c[..], lens, limit)
    ensures limit == MAX_LEN ==> Limited(old(Keys(p[..n])), t, u, lens, cut)
  {
    hide Prefix, SortedByKey, Lengthened, MinimalLengths, Falling, Between, Limited, Counts, CountsMatch, Used, Words,
         Pow2;
    ghost var w := Keys(p[..n]);
    t := MinimumRedundancy(p, n);
    u := Keys(p[..n]);
    assert forall i :: 0 <= i < n ==> p[i].key == u[i];
    if n == 1 { assert u == [1]; }
    Calculated(w, t, u, limit);
    c := CountLengths(p, n);
    lens, cut := EnforceMaxCodeSize(c, n, limit, u);
    LimitedMeans(w, t, u, lens, cut, limit);
  }

  lemma HandedFalls(counts: seq<nat>, p: seq<SymFreq>, sizes: seq<nat>, limit: nat)
    requires Handed(counts, p, sizes, 0, limit)
    ensures SizesFor(counts, p, sizes) && SymsBelow(p, |sizes|)
    ensures Falling(At(p, sizes)) && Between(At(p, sizes), limit)
  {
  }

  lemma SortedPositive(counts: seq<nat>, p: seq<SymFreq>)
    requires SortedUsed(counts, p)
    ensures SortedByKey(p) && forall i :: 0 <= i < |p| ==> p[i].key >= 1
  {
  }

  lemma HandedLimits(counts: seq<nat>, p: seq<SymFreq>, sizes: seq<nat>, limit: nat)
    requires Handed(counts, p, sizes, 0, limit)
    ensures forall i :: 0 <= i < |sizes| ==> sizes[i] <= limit
  {
  }

  lemma SizesValid(c: seq<int>, sizes: seq<nat>, limit: nat, n: nat)
    requires 1 <= limit <= MAX_LEN && CountsMatch(c, sizes, limit)
    requires forall i :: 0 <= i < |sizes| ==> sizes[i] <= limit
    requires n >= 2 ==> Used(c, limit) == Pow2(limit)
    requires n <= 1 ==> c[1] <= 1 && forall l :: 2 <= l <= limit ==> c[l] == 0
    ensures ValidCode(sizes)
  {
    if n >= 2 {
      CompleteSizes(c, sizes, limit);
    } else {
      assert sizes[..|sizes|] == sizes;
      forall i | 0 <= i < |sizes| ensures sizes[i] <= 1 {
        if sizes[i] > 1 {
          CountStrict(sizes, i, |sizes|, sizes[i]);
          assert false;
        }
      }
      forall i, j | 0 <= i < j < |sizes| ensures sizes[i] == 0 || sizes[j] == 0 {
        if sizes[i] == 1 && sizes[j] == 1 {
          CountStrict(sizes, i, j, 1);
          CountStrict(sizes, j, |sizes|, 1);
          assert false;
        }
      }
    }
  }

  method ClearSizes(sizes: array<nat>)
    modifies sizes
    ensures forall i :: 0 <= i < sizes.Length ==> sizes[i] == 0
  {
    var i := 0;
    while i < sizes.Length
      invariant 0 <= i <= sizes.Length && forall k :: 0 <= k < i ==> sizes[k] == 0
    {
      sizes[i] := 0;
      i := i + 1;
    }
  }

  /** The used symbols in the order of their frequencies. */
  method SortUsed(counts: array<nat>) returns (p: array<SymFreq>, n: nat)
    requires counts.Length <= 288 && Total(counts[..]) < 65536
    ensures fresh(p) && n <= p.Length == counts.Length && SortedUsed(counts[..], p[..n])
    ensures multiset(p[..n]) == multiset(UsedSyms(counts[..], counts.Length))
      && Prefix(Keys(p[..n]), n) == Total(counts[..])
  {
    hide UsedSyms, Total, SumKeys, SortedUsed, SortedByKey, WithKey, Keys, Prefix;
    ghost var cs := counts[..];
    var syms0 := new SymFreq[counts.Length](_ => SymFreq(0, 0));
    var syms1 := new SymFreq[counts.Length](_ => SymFreq(0, 0));
    n := CollectUsed(counts, syms0);
    UsedTotals(cs);
    assert forall i :: 0 <= i < n ==> syms0[i] == syms0[..n][i];
    p := RadixSortSyms(n, syms0, syms1);
    PermutedUsed(cs, p[..n]);
    SortedTotals(cs, p[..n]);
  }

  /** Frequencies to code lengths: collect, sort, minimum redundancy, limit. */
  method CodeSizes(counts: array<nat>, limit: nat, sizes: array<nat>) returns (c: array<int>)
    requires sizes.Length == counts.Length <= 288 && sizes != counts && 1 <= limit <= MAX_LEN
    requires counts.Length <= Pow2(limit) && Total(counts[..]) < 65536
    modifies sizes
    ensures fresh(c) && c.Length == MAX_SUPPORTED + 1
    ensures GoodSizes(counts[..], sizes[..], limit) && CountsMatch(c[..], sizes[..], limit)
    ensures limit == MAX_LEN ==> NearlyOptimal(counts[..], sizes[..])
  {
    hide Limited, At, NearlyOptimal, SizesFor, CountsMatch, Falling, Between, Prefix, Keys, Words, Used, Pow2;
    hide UsedSyms, Total, SortedUsed, SortedByKey, Handed, GoodSizes, ValidCode;
    ghost var cs := counts[..];
    var p, n := SortUsed(counts);
    ghost var q := p[..n];
    SortedPositive(cs, q);
    ghost var t, u, lens, cut;
    c, t, u, lens, cut := LimitedCounts(p, n, limit);
    ClearSizes(sizes);
    HandOut(c, limit, p, n, sizes, cs, q);
    HandedLimits(cs, q, sizes[..], limit);
    SizesValid(c[..], sizes[..], limit, n);
    HandedSizes(cs, q, sizes[..], limit);
    if limit == MAX_LEN {
      HandedFalls(cs, q, sizes[..], limit);
      TableNearlyOptimal(cs, q, sizes[..], c[..], t, u, lens, cut);
    }
  }

  /** A table for a dynamic block. */
  method OptimizeTable(counts: array<nat>, limit: nat, sizes: array<nat>, codes: array<nat>)
    requires sizes.Length == counts.Length == codes.Length <= 288 && sizes != counts && codes != counts
      && codes != sizes
    requires 1 <= limit <= MAX_LEN && counts.Length <= Pow2(limit) && Total(counts[..]) < 65536
    modifies sizes, codes
    ensures GoodSizes(counts[..], sizes[..], limit) && CodesFor(sizes[..], codes[..])
    ensures limit == MAX_LEN ==> NearlyOptimal(counts[..], sizes[..])
  {
    hide NearlyOptimal;
    var c := CodeSizes(counts, limit, sizes);
    AssignCodes(c, limit, sizes, codes);
  }

  /** A run of equal code lengths. */
  method FillSizes(a: array<nat>, from: nat, to: nat, v: nat)
    requires from <= to <= a.Length
    modifies a
    ensures a[..] == old(a[..from]) + seq(to - from, i => v) + old(a[to..])
  {
    var i := from;
    while i < to
      invariant from <= i <= to
      invariant a[..] == old(a[..from]) + seq(i - from, j => v) + old(a[i..])
    {
      a[i] := v;
      i := i + 1;
    }
  }

  /** A table for given sizes: the static block. */
  method StaticTable(limit: nat, sizes: array<nat>, codes: array<nat>)
    requires sizes.Length == codes.Length && codes != sizes && 1 <= limit <= MAX_LEN
    requires forall i :: 0 <= i < sizes.Length ==> sizes[i] <= limit
    modifies codes
    ensures CodesFor(sizes[..], codes[..])
  {
    var c := new int[MAX_SUPPORTED + 1](_ => 0);
    var i := 0;
    while i < sizes.Length
      invariant 0 <= i <= sizes.Length && c.Length == MAX_SUPPORTED + 1
      invariant forall k :: 0 <= k <= MAX_SUPPORTED ==> c[k] == Count(sizes[..i], k)
    {
      c[sizes[i]] := c[sizes[i]] + 1;
      forall k ensures Count(sizes[..i + 1], k) == Count(sizes[..i], k) + (if sizes[i] == k then 1 else 0) {
        CountStep(sizes[..], i, k);
        assert sizes[..][..i + 1] == sizes[..i + 1] && sizes[..][..i] == sizes[..i];
      }
      i := i + 1;
    }
    assert sizes[..i] == sizes[..];
    AssignCodes(c, limit, sizes, codes);
  }
}
