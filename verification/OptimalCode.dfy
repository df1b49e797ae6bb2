/**
  Weighted code lengths: the cost of a list of lengths, its Kraft sum, and the
  theorem that merging the two lightest weights again and again is optimal among
  all lists of lengths that some prefix code can have.
 */
module OptimalCode {
  import opened Bits
  import opened MergeTree

  ghost function Cost(w: seq<nat>, l: seq<nat>): nat
    requires |w| == |l|
  {
    if w == [] then 0 else w[0] * l[0] + Cost(w[1..], l[1..])
  }

  /** The Kraft sum in units of 2^-d. */
  ghost function KraftSum(l: seq<nat>, d: nat): nat
    requires forall i :: 0 <= i < |l| ==> l[i] <= d
  {
    if l == [] then 0 else Pow2(d - l[0]) + KraftSum(l[1..], d)
  }

  ghost predicate Fits(l: seq<nat>, d: nat)
  {
    (forall i :: 0 <= i < |l| ==> l[i] <= d) && KraftSum(l, d) <= Pow2(d)
  }

  // --------------------------------------------- changing one or two lengths

  ghost function Remove<T>(s: seq<T>, k: nat): (r: seq<T>)
    requires k < |s|
    ensures |r| == |s| - 1
    ensures forall i :: 0 <= i < k ==> r[i] == s[i]
    ensures forall i :: k <= i < |r| ==> r[i] == s[i + 1]
  {
    s[..k] + s[k + 1..]
  }

  lemma {:induction false} CostUpdate(w: seq<nat>, l: seq<nat>, k: nat, v: nat)
    requires |w| == |l| && k < |l|
    ensures Cost(w, l[k := v]) + w[k] * l[k] == Cost(w, l) + w[k] * v
  {
    var l' := l[k := v];
    if k == 0 {
      assert l'[1..] == l[1..];
    } else {
      CostUpdate(w[1..], l[1..], k - 1, v);
      assert l'[1..] == l[1..][k - 1 := v];
    }
  }

  lemma {:induction false} CostRemove(w: seq<nat>, l: seq<nat>, k: nat)
    requires |w| == |l| && k < |l|
    ensures Cost(w, l) == Cost(Remove(w, k), Remove(l, k)) + w[k] * l[k]
  {
    if k == 0 {
      assert Remove(w, 0) == w[1..] && Remove(l, 0) == l[1..];
    } else {
      CostRemove(w[1..], l[1..], k - 1);
      assert Remove(w, k)[1..] == Remove(w[1..], k - 1) && Remove(l, k)[1..] == Remove(l[1..], k - 1);
    }
  }

  lemma {:induction false} CostAppend(w: seq<nat>, l: seq<nat>, x: nat, y: nat)
    requires |w| == |l|
    ensures Cost(w + [x], l + [y]) == Cost(w, l) + x * y
  {
    if w != [] {
      CostAppend(w[1..], l[1..], x, y);
      assert (w + [x])[1..] == w[1..] + [x] && (l + [y])[1..] == l[1..] + [y];
    } else {
      assert w + [x] == [x] && l + [y] == [y];
      assert [x][1..] == [] && [y][1..] == [];
    }
  }

  lemma {:induction false} KraftUpdate(l: seq<nat>, d: nat, k: nat, v: nat)
    requires k < |l| && v <= d && forall i :: 0 <= i < |l| ==> l[i] <= d
    ensures KraftSum(l[k := v], d) + Pow2(d - l[k]) == KraftSum(l, d) + Pow2(d - v)
  {
    var l' := l[k := v];
    if k == 0 {
      assert l'[1..] == l[1..];
    } else {
      KraftUpdate(l[1..], d, k - 1, v);
      assert l'[1..] == l[1..][k - 1 := v];
    }
  }

  lemma {:induction false} KraftRemove(l: seq<nat>, d: nat, k: nat)
    requires k < |l| && forall i :: 0 <= i < |l| ==> l[i] <= d
    ensures KraftSum(l, d) == KraftSum(Remove(l, k), d) + Pow2(d - l[k])
  {
    if k == 0 {
      assert Remove(l, 0) == l[1..];
    } else {
      KraftRemove(l[1..], d, k - 1);
      assert Remove(l, k)[1..] == Remove(l[1..], k - 1);
    }
  }

  lemma KraftCons(x: nat, l: seq<nat>, d: nat)
    requires x <= d && forall i :: 0 <= i < |l| ==> l[i] <= d
    ensures KraftSum([x] + l, d) == Pow2(d - x) + KraftSum(l, d)
  {
    assert ([x] + l)[1..] == l;
  }

  lemma {:induction false} KraftAppend(l: seq<nat>, d: nat, y: nat)
    requires y <= d && forall i :: 0 <= i < |l| ==> l[i] <= d
    ensures KraftSum(l + [y], d) == KraftSum(l, d) + Pow2(d - y)
  {
    if l != [] {
      KraftAppend(l[1..], d, y);
      assert (l + [y])[1..] == l[1..] + [y];
    } else {
      assert l + [y] == [y];
      assert [y][1..] == [];
    }
  }

  /** The Kraft sum in coarser units, when no length needs the finer ones. */
  lemma {:induction false} KraftCoarser(l: seq<nat>, d: nat)
    requires forall i :: 0 <= i < |l| ==> l[i] <= d
    ensures KraftSum(l, d + 1) == 2 * KraftSum(l, d)
  {
    if l == [] {
    } else {
      KraftCoarser(l[1..], d);
    }
  }

  lemma {:induction false} FitsCoarser(l: seq<nat>, d: nat, m: nat)
    requires m <= d && Fits(l, d) && forall i :: 0 <= i < |l| ==> l[i] <= m
    ensures Fits(l, m)
    decreases d
  {
    if m == d {
    } else {
      KraftCoarser(l, d - 1);
      FitsCoarser(l, d - 1, m);
    }
  }

  /** All lengths but one are shorter than `m`: the sum is odd. */
  lemma {:induction false} KraftParity(l: seq<nat>, m: nat, a: nat)
    requires (forall i :: 0 <= i < |l| && i != a ==> l[i] < m) && (a < |l| ==> l[a] == m)
    ensures (forall i :: 0 <= i < |l| ==> l[i] <= m)
    ensures KraftSum(l, m) % 2 == if a < |l| then 1 else 0
  {
    if l == [] {
    } else {
      if a == 0 {
        KraftParity(l[1..], m, |l|);
        assert Pow2(m - l[0]) == 1;
      } else {
        KraftParity(l[1..], m, a - 1);
        assert Pow2(m - l[0]) == 2 * Pow2(m - l[0] - 1);
      }
    }
  }

  // -------------------------------------------------------- the exchange step

  lemma {:induction false} MaxIndex(l: seq<nat>) returns (a: nat)
    requires l != []
    ensures a < |l| && forall i :: 0 <= i < |l| ==> l[i] <= l[a]
  {
    a := 0;
    var k := 1;
    while k < |l|
      invariant a < |l| && k <= |l| && forall i :: 0 <= i < k ==> l[i] <= l[a]
    {
      if l[k] > l[a] { a := k; }
      k := k + 1;
    }
  }

  lemma TwoEmptyWords(l: seq<nat>)
    requires |l| >= 2 && forall i :: 0 <= i < |l| ==> l[i] == 0
    ensures KraftSum(l, 0) > Pow2(0)
  {
    assert KraftSum(l, 0) == 1 + KraftSum(l[1..], 0);
    assert KraftSum(l[1..], 0) == 1 + KraftSum(l[1..][1..], 0);
  }

  /** A single longest word can lose its last bit. */
  lemma LastPowers(m: nat)
    requires m >= 1
    ensures Pow2(m) == 2 * Pow2(m - 1) && Pow2(m - m) == 1 && Pow2(m - (m - 1)) == 2
  {
    assert m - (m - 1) == 1;
  }

  lemma ShortenLonely(l: seq<nat>, m: nat, a: nat)
    requires a < |l| && l[a] == m >= 1 && Fits(l, m)
    requires forall i :: 0 <= i < |l| && i != a ==> l[i] < m
    ensures Fits(l[a := m - 1], m)
  {
    hide KraftSum, Pow2;
    KraftParity(l, m, a);
    KraftUpdate(l, m, a, m - 1);
    LastPowers(m);
  }

  /** Some code at least as short has two words of greatest length. */
  lemma {:induction false} TwoDeepest(l: seq<nat>, d: nat) returns (l': seq<nat>, m: nat, a: nat, b: nat)
    requires |l| >= 2 && Fits(l, d)
    ensures |l'| == |l| && Fits(l', m) && forall i :: 0 <= i < |l| ==> l'[i] <= l[i]
    ensures a < |l| && b < |l| && a != b && l'[a] == m && l'[b] == m && m >= 1
    decreases d
  {
    hide KraftSum, Pow2;
    a := MaxIndex(l);
    m := l[a];
    FitsCoarser(l, d, m);
    if exists b :: 0 <= b < |l| && b != a && l[b] == m {
      b :| 0 <= b < |l| && b != a && l[b] == m;
      l' := l;
      if m == 0 {
        TwoEmptyWords(l);
        assert false;
      }
    } else {
      var k := if a == 0 then 1 else 0;
      assert l[k] < m;
      var s := l[a := m - 1];
      ShortenLonely(l, m, a);
      FitsCoarser(s, m, m - 1);
      l', m, a, b := TwoDeepest(s, m - 1);
    }
  }

  ghost function Swap(l: seq<nat>, p: nat, q: nat): (r: seq<nat>)
    requires p < |l| && q < |l|
    ensures |r| == |l|
  {
    l[p := l[q]][q := l[p]]
  }

  lemma SwapArithmetic(x: nat, y: nat, a: nat, b: nat)
    requires x <= y && a <= b
    ensures x * b + y * a <= x * a + y * b
  {
    assert (y - x) * (b - a) >= 0;
    assert (y - x) * (b - a) == y * b - y * a - x * b + x * a;
  }

  /** Giving the longer word to the lighter symbol costs nothing. */
  lemma SwapCost(w: seq<nat>, l: seq<nat>, d: nat, p: nat, q: nat)
    requires |w| == |l| && p < |l| && q < |l| && p != q && Fits(l, d)
    requires w[p] <= w[q] && l[p] <= l[q]
    ensures Fits(Swap(l, p, q), d) && Cost(w, Swap(l, p, q)) <= Cost(w, l)
  {
    hide Cost, KraftSum, Pow2;
    var l1 := l[p := l[q]];
    KraftUpdate(l, d, p, l[q]);
    KraftUpdate(l1, d, q, l[p]);
    CostUpdate(w, l, p, l[q]);
    CostUpdate(w, l1, q, l[p]);
    SwapArithmetic(w[p], w[q], l[p], l[q]);
  }

  ghost predicate Lightest(w: seq<nat>, i: nat, j: nat)
  {
    i < j < |w| && forall k :: 0 <= k < |w| && k != i && k != j ==> w[i] <= w[k] && w[j] <= w[k]
  }

  lemma {:induction false} CostMono(w: seq<nat>, s: seq<nat>, l: seq<nat>)
    requires |w| == |s| == |l| && forall i :: 0 <= i < |l| ==> s[i] <= l[i]
    ensures Cost(w, s) <= Cost(w, l)
  {
    if w == [] {
    } else {
      CostMono(w[1..], s[1..], l[1..]);
      SwapArithmetic(0, w[0], s[0], l[0]);
    }
  }

  /** Some code at least as cheap gives the two lightest symbols the two longest words. */
  lemma LightestDeepest(w: seq<nat>, l: seq<nat>, d: nat, i: nat, j: nat) returns (l': seq<nat>, m: nat)
    requires |w| == |l| && Lightest(w, i, j) && Fits(l, d)
    ensures |l'| == |l| && Fits(l', m) && m >= 1 && l'[i] == m && l'[j] == m
    ensures Cost(w, l') <= Cost(w, l)
  {
    hide Cost, KraftSum, Pow2;
    var s, a, b;
    s, m, a, b := TwoDeepest(l, d);
    CostMono(w, s, l);
    l' := s;
    if a != i && a != j {
      var p := if b == i then j else i;
      SwapCost(w, s, m, p, a);
      l' := Swap(s, p, a);
      if b != i && b != j {
        SwapCost(w, l', m, j, b);
        l' := Swap(l', j, b);
      }
    } else if b != i && b != j {
      var p := if a == i then j else i;
      SwapCost(w, s, m, p, b);
      l' := Swap(s, p, b);
    }
  }

  /** Merge symbols `i` and `j` into one of their joint weight. */
  ghost function Merged(w: seq<nat>, i: nat, j: nat): seq<nat>
    requires i < j < |w|
  {
    Remove(Remove(w, j), i) + [w[i] + w[j]]
  }

  lemma MergeArithmetic(x: nat, y: nat, m: nat)
    requires m >= 1
    ensures (x + y) * (m - 1) + x + y == x * m + y * m
  {
  }

  /** Every code for `w` contains a code for the merged weights that is cheaper
      by the weight of the merged symbol. */
  lemma MergeStepCost(w: seq<nat>, l: seq<nat>, d: nat, i: nat, j: nat) returns (l': seq<nat>, m: nat)
    requires |w| == |l| && Lightest(w, i, j) && Fits(l, d)
    ensures |l'| == |w| - 1 && Fits(l', m)
    ensures Cost(Merged(w, i, j), l') + w[i] + w[j] <= Cost(w, l)
  {
    hide Cost, KraftSum;
    var s;
    s, m := LightestDeepest(w, l, d, i, j);
    var s1 := Remove(s, j);
    var s2 := Remove(s1, i);
    l' := s2 + [m - 1];
    CostRemove(w, s, j);
    CostRemove(Remove(w, j), s1, i);
    CostAppend(Remove(Remove(w, j), i), s2, w[i] + w[j], m - 1);
    KraftRemove(s, m, j);
    KraftRemove(s1, m, i);
    KraftAppend(s2, m, m - 1);
    assert Pow2(0) == 1 && Pow2(1) == 2;
    MergeArithmetic(w[i], w[j], m);
  }

  // ------------------------------------------------------------ the whole run

  ghost function Weights(t: seq<Merge>, a: nat, b: nat): (r: seq<nat>)
    requires a <= b <= |t|
    ensures |r| == b - a
  {
    seq<nat>(b - a, i requires 0 <= i < b - a => Weight(t[a + i]))
  }

  /** The weights that wait before step `k`: leaves, then internal nodes. */
  ghost function Queue(w: seq<nat>, t: seq<Merge>, k: nat): (r: seq<nat>)
    requires IsTree(w, t) && k <= |t|
    ensures |r| == |w| - k
  {
    if k == 0 then w
    else
      assert MergeOk(w, t, k - 1);
      w[Leaves(t, k - 1)..] + Weights(t, t[k - 1].r, k)
  }

  lemma QueueEntry(w: seq<nat>, t: seq<Merge>, k: nat, r0: nat, l0: nat, m: nat)
    requires k < |t| && MergeOk(w, t, k) && r0 <= k && l0 <= |w| && m < |w| - l0 + k - r0
    ensures (w[l0..] + Weights(t, r0, k))[m] == if m < |w| - l0 then w[l0 + m] else Weight(t[r0 + m - (|w| - l0)])
    ensures m < |w| - l0 ==> if l0 + m < Leaves(t, k) then w[l0 + m] <= t[k].y else t[k].y <= w[l0 + m]
    ensures m >= |w| - l0 ==>
      var e := r0 + m - (|w| - l0);
      if e < t[k].r then Weight(t[e]) <= t[k].y else t[k].y <= Weight(t[e])
  {
  }

  /** What the two picks take together is the weight of the new node. */
  lemma TakenSum(w: seq<nat>, t: seq<Merge>, k: nat, r0: nat, l0: nat)
    requires k < |t| && MergeOk(w, t, k) && r0 <= t[k].r <= r0 + 2 && l0 + r0 == 2 * k && l0 <= |w|
    requires SumW(t, k) == Prefix(w, l0) + SumW(t, r0)
    ensures var r1 := t[k].r;
            Weight(t[k]) == if r1 == r0 then w[l0] + w[l0 + 1]
                            else if r1 == r0 + 1 then w[l0] + Weight(t[r0])
                            else Weight(t[r0]) + Weight(t[r0 + 1])
  {
    assert SumW(t, k + 1) == SumW(t, k) + Weight(t[k]);
    var r1 := t[k].r;
    if r1 < r0 + 2 { assert Prefix(w, l0 + 1) == Prefix(w, l0) + w[l0]; }
    if r1 == r0 { assert Prefix(w, l0 + 2) == Prefix(w, l0 + 1) + w[l0 + 1]; }
    if r1 > r0 { assert SumW(t, r0 + 1) == SumW(t, r0) + Weight(t[r0]); }
    if r1 == r0 + 2 { assert SumW(t, r0 + 2) == SumW(t, r0 + 1) + Weight(t[r0 + 1]); }
  }

  lemma StepLightest(w: seq<nat>, t: seq<Merge>, k: nat, r0: nat, l0: nat, i: nat, j: nat)
    requires k < |t| && MergeOk(w, t, k) && l0 + r0 == 2 * k && l0 <= |w| && k < |w|
    requires r0 <= k && r0 <= t[k].r <= r0 + 2 && SumW(t, k) == Prefix(w, l0) + SumW(t, r0)
    requires t[k].r <= k && Leaves(t, k) <= |w|
    requires i == (if t[k].r <= r0 + 1 then 0 else |w| - l0)
    requires j == (if t[k].r == r0 then 1 else if t[k].r == r0 + 1 then |w| - l0 else |w| - l0 + 1)
    ensures var q := w[l0..] + Weights(t, r0, k);
            Lightest(q, i, j) && q[i] + q[j] == Weight(t[k])
  {
    hide MergeOk, Prefix, SumW, Weights;
    var q := w[l0..] + Weights(t, r0, k);
    var y := t[k].y;
    forall m | 0 <= m < |q|
      ensures if m == i || m == j then q[m] <= y else y <= q[m]
    {
      QueueEntry(w, t, k, r0, l0, m);
    }
    QueueEntry(w, t, k, r0, l0, i);
    QueueEntry(w, t, k, r0, l0, j);
    TakenSum(w, t, k, r0, l0);
  }

  lemma RemoveAt(p: seq<nat>, x: nat, s: seq<nat>)
    ensures Remove(p + [x] + s, |p|) == p + s
  {
  }

  lemma BothOfFirst(a: seq<nat>, b: seq<nat>)
    requires |a| >= 2
    ensures Remove(Remove(a + b, 1), 0) == a[2..] + b
  {
    hide Remove;
    RemoveAt([a[0]], a[1], a[2..] + b);
    RemoveAt([], a[0], a[2..] + b);
    assert a + b == [a[0]] + [a[1]] + (a[2..] + b);
    assert [a[0]] + (a[2..] + b) == [] + [a[0]] + (a[2..] + b);
  }

  lemma OneOfEach(a: seq<nat>, b: seq<nat>)
    requires |a| >= 1 && |b| >= 1
    ensures Remove(Remove(a + b, |a|), 0) == a[1..] + b[1..]
  {
    hide Remove;
    RemoveAt(a, b[0], b[1..]);
    RemoveAt([], a[0], a[1..] + b[1..]);
    assert a + b == a + [b[0]] + b[1..];
    assert a + b[1..] == [] + [a[0]] + (a[1..] + b[1..]);
  }

  lemma BothOfSecond(a: seq<nat>, b: seq<nat>)
    requires |b| >= 2
    ensures Remove(Remove(a + b, |a| + 1), |a|) == a + b[2..]
  {
    hide Remove;
    RemoveAt(a + [b[0]], b[1], b[2..]);
    RemoveAt(a, b[0], b[2..]);
    assert a + b == a + [b[0]] + [b[1]] + b[2..];
  }

  /** Removing heads of two queues laid end to end. */
  lemma NextQueue(a: seq<nat>, b: seq<nat>, i: nat, j: nat, n: nat)
    requires n <= 2 && n <= |b| && 2 - n <= |a|
    requires i == (if n <= 1 then 0 else |a|) && j == (if n == 0 then 1 else if n == 1 then |a| else |a| + 1)
    ensures i < j < |a + b| && Remove(Remove(a + b, j), i) == a[2 - n..] + b[n..]
  {
    hide Remove;
    if n == 0 {
      BothOfFirst(a, b);
    } else if n == 1 {
      OneOfEach(a, b);
    } else {
      BothOfSecond(a, b);
    }
  }

  lemma StepQueue(w: seq<nat>, t: seq<Merge>, k: nat, r0: nat, l0: nat, i: nat, j: nat)
    requires IsTree(w, t) && k < |t| && l0 == 2 * k - r0 && l0 <= |w|
    requires r0 <= k && r0 <= t[k].r <= r0 + 2 && t[k].r <= k && Leaves(t, k) <= |w|
    requires i == (if t[k].r <= r0 + 1 then 0 else |w| - l0)
    requires j == (if t[k].r == r0 then 1 else if t[k].r == r0 + 1 then |w| - l0 else |w| - l0 + 1)
    ensures var q := w[l0..] + Weights(t, r0, k);
            i < j < |q| && Queue(w, t, k + 1) == Remove(Remove(q, j), i) + [Weight(t[k])]
  {
    hide IsTree, MergeOk, Remove;
    var r1, l1 := t[k].r, Leaves(t, k);
    NextQueue(w[l0..], Weights(t, r0, k), i, j, r1 - r0);
    assert w[l0..][l1 - l0..] == w[l1..];
    assert Weights(t, r0, k)[r1 - r0..] == Weights(t, r1, k);
    assert Weights(t, r1, k + 1) == Weights(t, r1, k) + [Weight(t[k])];
    assert w[l1..] + Weights(t, r1, k + 1) == w[l1..] + Weights(t, r1, k) + [Weight(t[k])];
  }

  lemma StepTakes(w: seq<nat>, t: seq<Merge>, k: nat, r0: nat, l0: nat, i: nat, j: nat)
    requires IsTree(w, t) && k < |t| && MergeOk(w, t, k)
    requires r0 == (if k == 0 then 0 else t[k - 1].r) && l0 == 2 * k - r0 && l0 <= |w|
    requires t[k].r <= k && Leaves(t, k) <= |w|
    requires r0 <= k && r0 <= t[k].r <= r0 + 2 && SumW(t, k) == Prefix(w, l0) + SumW(t, r0)
    requires Queue(w, t, k) == w[l0..] + Weights(t, r0, k)
    requires i == (if t[k].r <= r0 + 1 then 0 else |w| - l0)
    requires j == (if t[k].r == r0 then 1 else if t[k].r == r0 + 1 then |w| - l0 else |w| - l0 + 1)
    ensures Lightest(Queue(w, t, k), i, j)
    ensures Queue(w, t, k + 1) == Merged(Queue(w, t, k), i, j)
    ensures Queue(w, t, k)[i] + Queue(w, t, k)[j] == Weight(t[k])
  {
    hide IsTree, MergeOk, Prefix, SumW, Remove, Lightest, Queue, Weights;
    StepLightest(w, t, k, r0, l0, i, j);
    StepQueue(w, t, k, r0, l0, i, j);
  }

  /** Step `k` takes two of the lightest weights that wait. */
  lemma StepTakesLightest(w: seq<nat>, t: seq<Merge>, k: nat) returns (i: nat, j: nat)
    requires IsTree(w, t) && k < |t|
    ensures Lightest(Queue(w, t, k), i, j)
    ensures Queue(w, t, k + 1) == Merged(Queue(w, t, k), i, j)
    ensures Queue(w, t, k)[i] + Queue(w, t, k)[j] == Weight(t[k])
  {
    assert MergeOk(w, t, k);
    if k > 0 { assert MergeOk(w, t, k - 1); }
    var r0 := if k == 0 then 0 else t[k - 1].r;
    var l0 := if k == 0 then 0 else Leaves(t, k - 1);
    var r1, l1 := t[k].r, Leaves(t, k);
    var q := Queue(w, t, k);
    assert q == w[l0..] + Weights(t, r0, k);
    var f := |w| - l0;
    assert SumW(t, k) == Prefix(w, l0) + SumW(t, r0);
    if r1 == r0 {
      i, j := 0, 1;
    } else if r1 == r0 + 1 {
      i, j := 0, f;
    } else {
      i, j := f, f + 1;
    }
    StepTakes(w, t, k, r0, l0, i, j);
  }

  /** No prefix code for the weights is cheaper than the one calculated. */
  lemma {:induction false} Optimal(w: seq<nat>, t: seq<Merge>, k: nat, l: seq<nat>, d: nat)
    requires IsTree(w, t) && |t| == |w| - 1 && k <= |t|
    requires |l| == |w| - k && Fits(l, d)
    ensures Cost(Queue(w, t, k), l) + SumW(t, k) >= SumW(t, |t|)
    decreases |t| - k
  {
    hide Queue, Lightest, Fits, IsTree;
    if k == |t| {
    } else {
      var i, j := StepTakesLightest(w, t, k);
      var l', m := MergeStepCost(Queue(w, t, k), l, d, i, j);
      Optimal(w, t, k + 1, l', m);
    }
  }
}
