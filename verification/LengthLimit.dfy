/**
  Limiting the length of a complete code. `c[l]` is the number of words of
  length `l`; the heuristic moves words until none is longer than the limit and
  the Kraft sum is one again.
 */
module LengthLimit {
  import opened Bits
  import opened Canonical
  import opened OptimalCode

  const MAX_SUPPORTED: nat := 32

  /** The Kraft sum of the words of length at most `l`, in units of 2^-l. */
  ghost function Used(c: seq<int>, l: nat): int
    requires l < |c|
  {
    if l == 0 then 0 else 2 * Used(c, l - 1) + c[l]
  }

  /** The number of words with lengths in (a, b]. */
  ghost function Words(c: seq<int>, a: nat, b: nat): int
    requires a <= b < |c|
  {
    if a == b then 0 else Words(c, a, b - 1) + c[b]
  }

  ghost predicate NonNeg(c: seq<int>)
  {
    forall i :: 0 <= i < |c| ==> c[i] >= 0
  }

  lemma {:induction false} UsedSame(c: seq<int>, c': seq<int>, m: nat, l: nat)
    requires m <= l < |c| == |c'| && Used(c, m) == Used(c', m)
    requires forall k :: m < k <= l ==> c[k] == c'[k]
    ensures Used(c, l) == Used(c', l)
    decreases l - m
  {
    if m == l {
    } else {
      UsedSame(c, c', m, l - 1);
    }
  }

  lemma {:induction false} UsedPrefix(c: seq<int>, c': seq<int>, l: nat)
    requires l < |c| == |c'| && forall k :: 0 < k <= l ==> c[k] == c'[k]
    ensures Used(c, l) == Used(c', l)
  {
    if l == 0 {
    } else {
      UsedPrefix(c, c', l - 1);
    }
  }

  lemma {:induction false} WordsSame(c: seq<int>, c': seq<int>, a: nat, b: nat)
    requires a <= b < |c| == |c'| && forall k :: a < k <= b ==> c[k] == c'[k]
    ensures Words(c, a, b) == Words(c', a, b)
  {
    if a == b {
    } else {
      WordsSame(c, c', a, b - 1);
    }
  }

  lemma {:induction false} WordsSplit(c: seq<int>, a: nat, m: nat, b: nat)
    requires a <= m <= b < |c|
    ensures Words(c, a, b) == Words(c, a, m) + Words(c, m, b)
    decreases b - m
  {
    if m == b {
    } else {
      WordsSplit(c, a, m, b - 1);
    }
  }

  lemma {:induction false} WordsNonNeg(c: seq<int>, a: nat, b: nat)
    requires a <= b < |c| && NonNeg(c)
    ensures Words(c, a, b) >= 0
  {
    if a == b {
    } else {
      WordsNonNeg(c, a, b - 1);
    }
  }

  /** The room left at level `l` is at most the number of longer words. */
  lemma {:induction false} RoomBound(c: seq<int>, l: nat, top: nat)
    requires l <= top < |c| && NonNeg(c) && Used(c, top) == Pow2(top)
    ensures 0 <= Pow2(l) - Used(c, l) <= Words(c, l, top)
    decreases top - l
  {
    if l == top {
    } else {
      RoomBound(c, l + 1, top);
      WordsSplit(c, l, l + 1, top);
      assert Words(c, l, l + 1) == c[l + 1];
    }
  }

  lemma {:induction false} NoShortWords(c: seq<int>, l: nat)
    requires l < |c| && forall k :: 0 < k <= l ==> c[k] == 0
    ensures Used(c, l) == 0 && Words(c, 0, l) == 0
  {
    if l == 0 {
    } else {
      NoShortWords(c, l - 1);
    }
  }

  /** What the loop keeps: `n` words of length at most `max`, too many by at
      most the number of longest ones. */
  ghost predicate Overfull(c: seq<int>, n: nat, max: nat)
  {
    && 1 <= max < |c| && NonNeg(c) && Words(c, 0, max) == n
    && 0 <= Used(c, max) - Pow2(max) <= c[max]
  }

  /** Folding the longer words into the longest allowed length. */
  lemma FoldOverfull(c: seq<int>, c': seq<int>, n: nat, max: nat)
    requires |c| == |c'| == MAX_SUPPORTED + 1 && 1 <= max <= MAX_SUPPORTED && NonNeg(c)
    requires Used(c, MAX_SUPPORTED) == Pow2(MAX_SUPPORTED) && Words(c, 0, MAX_SUPPORTED) == n
    requires c' == c[max := c[max] + Words(c, max, MAX_SUPPORTED)]
    ensures Overfull(c', n, max)
    ensures Words(c, max, MAX_SUPPORTED) == 0 ==> Used(c', max) == Pow2(max)
  {
    hide Pow2;
    RoomBound(c, max, MAX_SUPPORTED);
    WordsNonNeg(c, max, MAX_SUPPORTED);
    WordsSplit(c, 0, max, MAX_SUPPORTED);
    UsedPrefix(c, c', max - 1);
    WordsSame(c, c', 0, max - 1);
  }

  /** One round: a longest word is paired with a shorter one, one level down. */
  lemma RoundUsed(c: seq<int>, max: nat, i: nat)
    requires 1 <= i < max < |c|
    ensures var c1 := c[max := c[max] - 1];
            var c2 := c1[i := c1[i] - 1];
            Used(c2[i + 1 := c2[i + 1] + 2], max) == Used(c, max) - 1
  {
    var c1 := c[max := c[max] - 1];
    var c2 := c1[i := c1[i] - 1];
    var c3 := c2[i + 1 := c2[i + 1] + 2];
    UsedPrefix(c, c1, max - 1);
    UsedPrefix(c1, c3, i - 1);
    assert Used(c3, i + 1) == Used(c1, i + 1) by {
      assert Used(c3, i) == Used(c1, i) - 1;
    }
    UsedSame(c1, c3, i + 1, max);
  }

  lemma RoundWords(c: seq<int>, max: nat, i: nat)
    requires 1 <= i < max < |c|
    ensures var c1 := c[max := c[max] - 1];
            var c2 := c1[i := c1[i] - 1];
            Words(c2[i + 1 := c2[i + 1] + 2], 0, max) == Words(c, 0, max)
  {
    var c1 := c[max := c[max] - 1];
    var c2 := c1[i := c1[i] - 1];
    var c3 := c2[i + 1 := c2[i + 1] + 2];
    WordsSame(c, c1, 0, max - 1);
    WordsSame(c1, c3, 0, i - 1);
    WordsSame(c1, c3, i + 1, max);
    WordsSplit(c1, 0, i + 1, max);
    WordsSplit(c3, 0, i + 1, max);
  }

  lemma RoundKeeps(c: seq<int>, n: nat, max: nat, i: nat)
    requires Overfull(c, n, max) && Used(c, max) > Pow2(max) && 1 <= i < max && c[i] > 0
    ensures var c1 := c[max := c[max] - 1];
            var c2 := c1[i := c1[i] - 1];
            var c3 := c2[i + 1 := c2[i + 1] + 2];
            Overfull(c3, n, max) && Used(c3, max) == Used(c, max) - 1
  {
    hide Pow2, Used, Words;
    RoundUsed(c, max, i);
    RoundWords(c, max, i);
  }

  /** While there are too many words some word is shorter than the limit. */
  lemma SomeShortWord(c: seq<int>, n: nat, max: nat)
    requires Overfull(c, n, max) && Used(c, max) > Pow2(max) && n <= Pow2(max)
    ensures exists i :: 1 <= i < max && c[i] > 0
  {
    if forall i :: 1 <= i < max ==> c[i] <= 0 {
      NoShortWords(c, max - 1);
      assert false;
    }
  }

  // ------------------------------------------------- the words one by one

  /** The number of words of each length. */
  ghost predicate CountsMatch(c: seq<int>, sizes: seq<nat>, limit: nat)
  {
    limit < |c| && forall l :: 1 <= l <= limit ==> c[l] == Count(sizes, l)
  }

  lemma {:induction false} UsedIsEnd(c: seq<int>, sizes: seq<nat>, limit: nat, l: nat)
    requires CountsMatch(c, sizes, limit) && l <= limit
    ensures Used(c, l) == End(sizes, l)
  {
    if l == 0 {
    } else {
      UsedIsEnd(c, sizes, limit, l - 1);
    }
  }

  lemma {:induction false} EndAppend(l: seq<nat>, y: nat, m: nat)
    requires 1 <= y
    ensures End(l + [y], m) == End(l, m) + (if y <= m then Pow2(m - y) else 0)
  {
    assert (l + [y])[..|l|] == l;
    if m == 0 {
    } else {
      EndAppend(l, y, m - 1);
    }
  }

  lemma {:induction false} NoEnd(m: nat)
    ensures End([], m) == 0
  {
    if m == 0 {
    } else {
      NoEnd(m - 1);
    }
  }

  lemma {:induction false} KraftIsEnd(l: seq<nat>, m: nat)
    requires forall i :: 0 <= i < |l| ==> 1 <= l[i] <= m
    ensures KraftSum(l, m) == End(l, m)
  {
    if l == [] {
      NoEnd(m);
    } else {
      var n := |l| - 1;
      assert l == l[..n] + [l[n]];
      KraftIsEnd(l[..n], m);
      KraftAppend(l[..n], m, l[n]);
      EndAppend(l[..n], l[n], m);
    }
  }

  lemma {:induction false} WordsAppend(c: seq<int>, c': seq<int>, y: nat, a: nat, b: nat)
    requires a <= b < |c| == |c'| && forall k :: a < k <= b ==> c'[k] == c[k] + (if k == y then 1 else 0)
    ensures Words(c', a, b) == Words(c, a, b) + (if a < y <= b then 1 else 0)
  {
    if a == b {
    } else {
      WordsAppend(c, c', y, a, b - 1);
    }
  }

  ghost function Counts(l: seq<nat>): (c: seq<int>)
    ensures |c| == MAX_SUPPORTED + 1
    ensures forall k :: 0 <= k <= MAX_SUPPORTED ==> c[k] == Count(l, k)
  {
    seq(MAX_SUPPORTED + 1, k requires 0 <= k => Count(l, k))
  }

  lemma {:induction false} WordsAll(l: seq<nat>)
    requires forall i :: 0 <= i < |l| ==> 1 <= l[i] <= MAX_SUPPORTED
    ensures Words(Counts(l), 0, MAX_SUPPORTED) == |l|
  {
    if l == [] {
      NoShortWords(Counts([]), MAX_SUPPORTED);
    } else {
      var n := |l| - 1;
      WordsAll(l[..n]);
      WordsAppend(Counts(l[..n]), Counts(l), l[n], 0, MAX_SUPPORTED);
    }
  }

  lemma {:induction false} CountUpdate(s: seq<nat>, k: nat, v: nat, l: nat)
    requires k < |s|
    ensures Count(s[k := v], l) == Count(s, l) - (if s[k] == l then 1 else 0) + (if v == l then 1 else 0)
  {
    var n := |s| - 1;
    var s' := s[k := v];
    if k == n {
      assert s'[..n] == s[..n];
    } else {
      CountUpdate(s[..n], k, v, l);
      assert s'[..n] == s[..n][k := v];
    }
  }

  lemma CountsOwn(l: seq<nat>)
    ensures CountsMatch(Counts(l), l, MAX_SUPPORTED) && NonNeg(Counts(l))
  {
  }

  /** Lengths of the symbols from the lightest on. */
  ghost predicate Falling(l: seq<nat>)
  {
    forall i, j :: 0 <= i <= j < |l| ==> l[i] >= l[j]
  }

  ghost predicate Between(l: seq<nat>, max: nat)
  {
    forall i :: 0 <= i < |l| ==> 1 <= l[i] <= max
  }

  ghost function Capped(u: seq<nat>, max: nat): (r: seq<nat>)
    ensures |r| == |u|
  {
    seq<nat>(|u|, i requires 0 <= i < |u| => if u[i] > max then max else u[i])
  }

  /** What the rounds do to lengths `u`: only the first `cut` symbols change, and
      when the last of these was first lengthened there were too many words even
      with all lighter symbols at the limit. */
  ghost predicate Lengthened(u: seq<nat>, l: seq<nat>, max: nat, cut: nat)
  {
    && |l| == |u| && cut <= |u| && Falling(l) && Between(l, max) && Between(u, max)
    && (forall i :: cut <= i < |u| ==> l[i] == u[i])
    && (cut > 0 ==> u[cut - 1] < max && cut - 1 + KraftSum(u[cut - 1..], max) > Pow2(max))
  }

  lemma {:induction false} KraftSplit(l: seq<nat>, max: nat, k: nat)
    requires Between(l, max) && k <= |l|
    ensures KraftSum(l, max) == KraftSum(l[..k], max) + KraftSum(l[k..], max)
  {
    if k == 0 {
      assert l[0..] == l;
    } else {
      KraftSplit(l[1..], max, k - 1);
      assert l[1..][..k - 1] == l[..k][1..] && l[1..][k - 1..] == l[k..];
    }
  }

  lemma {:induction false} KraftOnes(l: seq<nat>, max: nat)
    requires forall i :: 0 <= i < |l| ==> l[i] == max
    ensures KraftSum(l, max) == |l|
  {
    if l == [] {
    } else {
      KraftOnes(l[1..], max);
    }
  }

  lemma CountIn(l: seq<nat>, j: nat)
    requires j < |l|
    ensures Count(l, l[j]) > 0
  {
    CountStrict(l, j, |l|, l[j]);
    assert l[..|l|] == l;
  }

  lemma FirstOf(l: seq<nat>, v: nat) returns (p: nat)
    requires Count(l, v) > 0
    ensures p < |l| && l[p] == v && forall j :: 0 <= j < p ==> l[j] != v
  {
    p := KthSymbol(l, v, 0);
    forall j | 0 <= j < p ensures l[j] != v { CountIn(l[..p], j); }
  }

  lemma KraftIsUsed(c: seq<int>, l: seq<nat>, max: nat)
    requires CountsMatch(c, l, max) && Between(l, max)
    ensures KraftSum(l, max) == Used(c, max)
  {
    KraftIsEnd(l, max);
    UsedIsEnd(c, l, max, max);
  }

  /** The symbols a round touches: the heaviest of those at the limit, and the
      lightest of the others. */
  lemma RoundTouches(c: seq<int>, l: seq<nat>, max: nat, i: nat) returns (p: nat)
    requires CountsMatch(c, l, max) && Falling(l) && Between(l, max)
    requires 1 <= i < max && c[i] > 0 && c[max] > 0 && forall k :: i < k < max ==> c[k] == 0
    ensures 1 <= p < |l| && l[p] == i && forall j :: 0 <= j < p ==> l[j] == max
  {
    hide Count;
    p := FirstOf(l, i);
    var m := FirstOf(l, max);
    assert m < p;
    forall j | 0 <= j < p ensures l[j] == max {
      assert l[j] >= l[p];
      CountIn(l, j);
    }
  }

  /** One round on the lengths themselves. */
  lemma RoundLengthens(u: seq<nat>, l: seq<nat>, c: seq<int>, max: nat, cut: nat, i: nat)
    returns (l': seq<nat>, cut': nat)
    requires Lengthened(u, l, max, cut) && CountsMatch(c, l, max) && Used(c, max) > Pow2(max)
    requires 1 <= i < max && c[i] > 0 && c[max] > 0 && forall k :: i < k < max ==> c[k] == 0
    ensures Lengthened(u, l', max, cut')
    ensures var c1 := c[max := c[max] - 1];
            var c2 := c1[i := c1[i] - 1];
            CountsMatch(c2[i + 1 := c2[i + 1] + 2], l', max)
  {
    hide Count, KraftSum, Used;
    var p := RoundTouches(c, l, max, i);
    var l1 := l[p - 1 := i + 1];
    l', cut' := l1[p := i + 1], cut;
    forall k: nat ensures Count(l', k) == Count(l, k) - (if k == max then 1 else 0) - (if k == i then 1 else 0)
      + (if k == i + 1 then 2 else 0) {
      CountUpdate(l, p - 1, i + 1, k);
      CountUpdate(l1, p, i + 1, k);
    }
    if p >= cut {
      cut' := p + 1;
      KraftIsUsed(c, l, max);
      KraftSplit(l, max, p);
      KraftOnes(l[..p], max);
      assert l[p..] == u[p..];
    }
  }

  lemma {:induction false} NoWords(a: nat, b: nat)
    requires a <= b <= MAX_SUPPORTED
    ensures Words(Counts([]), a, b) == 0
  {
    if a == b {
    } else {
      NoWords(a, b - 1);
    }
  }

  lemma {:induction false} CappedCounts(u: seq<nat>, max: nat, k: nat)
    requires Between(u, MAX_SUPPORTED) && 1 <= k <= max <= MAX_SUPPORTED
    ensures Count(Capped(u, max), k) == if k < max then Count(u, k) else Words(Counts(u), max - 1, MAX_SUPPORTED)
  {
    hide Words;
    if u == [] {
      NoWords(max - 1, MAX_SUPPORTED);
    } else {
      var n := |u| - 1;
      CappedCounts(u[..n], max, k);
      assert Capped(u, max)[..n] == Capped(u[..n], max);
      WordsAppend(Counts(u[..n]), Counts(u), u[n], max - 1, MAX_SUPPORTED);
    }
  }

  /** Folding caps the lengths. */
  lemma FoldCaps(c: seq<int>, u: seq<nat>, max: nat)
    requires c == Counts(u) && 1 <= max <= MAX_SUPPORTED && Between(u, MAX_SUPPORTED) && Falling(u)
    ensures CountsMatch(c[max := c[max] + Words(c, max, MAX_SUPPORTED)], Capped(u, max), max)
    ensures Lengthened(Capped(u, max), Capped(u, max), max, 0)
  {
    hide Count;
    WordsSplit(c, max - 1, max, MAX_SUPPORTED);
    assert Words(c, max - 1, max) == c[max];
    forall k | 1 <= k <= max ensures Count(Capped(u, max), k) == c[max := c[max] + Words(c, max, MAX_SUPPORTED)][k] {
      CappedCounts(u, max, k);
    }
  }

  lemma ShiftArithmetic(u: int, x: int, p: int)
    ensures (2 * u + x) * p == u * (2 * p) + x * p
  {
  }

  /** total += num_codes[i] << (max - i), from the longest length down. */
  method KraftTotal(c: array<int>, max: nat) returns (total: int)
    requires max < c.Length
    ensures total == Used(c[..], max)
  {
    total := 0;
    var i := max;
    while i > 0
      invariant 0 <= i <= max
      invariant total + Used(c[..], i) * Pow2(max - i) == Used(c[..], max)
    {
      ShiftArithmetic(Used(c[..], i - 1), c[i], Pow2(max - i));
      total := total + c[i] * Pow2(max - i);
      i := i - 1;
    }
  }

  lemma OverfullMeans(c: seq<int>, n: nat, max: nat)
    requires Overfull(c, n, max)
    ensures NonNeg(c) && Words(c, 0, max) == n && Used(c, max) >= Pow2(max)
  {
  }

  method OneRound(c: array<int>, n: nat, max: nat) returns (ghost level: nat)
    requires c.Length == MAX_SUPPORTED + 1 && Overfull(c[..], n, max) && Used(c[..], max) > Pow2(max)
    requires exists i :: 1 <= i < max && c[i] > 0
    modifies c
    ensures Overfull(c[..], n, max) && Used(c[..], max) == old(Used(c[..], max)) - 1
    ensures 1 <= level < max && old(c[level]) > 0 && old(c[max]) > 0 && forall k ::
      level < k < max ==> old(c[..])[k] == 0
    ensures var c1 := old(c[..])[max := old(c[max]) - 1];
            var c2 := c1[level := c1[level] - 1];
            c[..] == c2[level + 1 := c2[level + 1] + 2]
  {
    ghost var c0 := c[..];
    ghost var w :| 1 <= w < max && c[w] > 0;
    c[max] := c[max] - 1;
    var i := max - 1;
    while i > 0 && c[i] == 0
      invariant w <= i < max && forall k :: i < k < max ==> c0[k] == 0
    {
      i := i - 1;
    }
    RoundKeeps(c0, n, max, i);
    level := i;
    c[i] := c[i] - 1;
    c[i + 1] := c[i + 1] + 2;
  }

  /** The words are paired off until none is too many. */
  method Rounds(c: array<int>, n: nat, max: nat, ghost u: seq<nat>) returns (ghost l: seq<nat>, ghost cut: nat)
    requires c.Length == MAX_SUPPORTED + 1 && Overfull(c[..], n, max) && 1 <= max <= MAX_SUPPORTED && n <= Pow2(max)
    requires CountsMatch(c[..], u, max) && Lengthened(u, u, max, 0)
    modifies c
    ensures NonNeg(c[..]) && Words(c[..], 0, max) == n && Used(c[..], max) == Pow2(max)
    ensures CountsMatch(c[..], l, max) && Lengthened(u, l, max, cut)
    ensures old(Used(c[..], max)) == Pow2(max) ==> c[..] == old(c[..])
  {
    hide Lengthened, CountsMatch, Overfull, Used, Words, NonNeg;
    ghost var c0 := c[..];
    l, cut := u, 0;
    var total := KraftTotal(c, max);
    while total != Pow2(max)
      invariant Overfull(c[..], n, max) && total == Used(c[..], max)
      invariant CountsMatch(c[..], l, max) && Lengthened(u, l, max, cut)
      invariant Used(c0, max) == Pow2(max) ==> c[..] == c0
      decreases total
    {
      ghost var before := c[..];
      OverfullMeans(before, n, max);
      SomeShortWord(before, n, max);
      assert Used(c0, max) != Pow2(max);
      ghost var i := OneRound(c, n, max);
      l, cut := RoundLengthens(u, l, before, max, cut, i);
      total := total - 1;
    }
    OverfullMeans(c[..], n, max);
  }

  method FoldLonger(c: array<int>, max: nat)
    requires c.Length == MAX_SUPPORTED + 1 && 1 <= max <= MAX_SUPPORTED
    modifies c
    ensures c[..] == old(c[..])[max := old(c[max]) + Words(old(c[..]), max, MAX_SUPPORTED)]
  {
    ghost var c0 := c[..];
    var i := max + 1;
    while i <= MAX_SUPPORTED
      invariant max + 1 <= i <= MAX_SUPPORTED + 1
      invariant c[..] == c0[max := c0[max] + Words(c0, max, i - 1)]
    {
      c[max] := c[max] + c[i];
      i := i + 1;
    }
  }

  /** Terminates with the same number of words, none negative, none longer than
      `max`, and Kraft sum exactly one. */
  method EnforceMaxCodeSize(c: array<int>, n: nat, max: nat, ghost u: seq<nat>) returns (ghost l: seq<nat>,
          ghost cut: nat)
    requires c[..] == Counts(u) && Falling(u) && Between(u, MAX_SUPPORTED)
    requires c.Length == MAX_SUPPORTED + 1 && 1 <= max <= MAX_SUPPORTED && NonNeg(c[..])
    requires n >= 2 ==> Used(c[..], MAX_SUPPORTED) == Pow2(MAX_SUPPORTED) && Words(c[..], 0, MAX_SUPPORTED) == n
    requires n <= Pow2(max)
    modifies c
    ensures NonNeg(c[..])
    ensures n >= 2 ==> Words(c[..], 0, max) == n && Used(c[..], max) == Pow2(max)
    ensures n >= 2 && Words(old(c[..]), max, MAX_SUPPORTED) == 0 ==> c[..] == old(c[..])
    ensures n <= 1 ==> c[..] == old(c[..]) && l == u
    ensures n >= 2 ==> CountsMatch(c[..], l, max) && Lengthened(Capped(u, max), l, max, cut)
  {
    hide Lengthened, CountsMatch, Falling, Between, Counts, Capped, Overfull, Used, Words, Pow2;
    l, cut := u, 0;
    if n <= 1 { return; }
    ghost var c0 := c[..];
    FoldLonger(c, max);
    FoldOverfull(c0, c[..], n, max);
    FoldCaps(c0, u, max);
    assert c[..] == c0[max := c0[max] + Words(c0, max, MAX_SUPPORTED)];
    l := Capped(u, max);
    l, cut := Rounds(c, n, max, l);
  }
}
