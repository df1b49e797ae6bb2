/**
  The combinatorics of the in-place minimum-redundancy pass. The pass keeps two
  queues, the leaves in order of weight and the internal nodes in order of
  creation, and merges the two lightest heads. `Merge` records one such step.
 */
module MergeTree {
  import opened Bits

  /** The two weights taken by a step, and how many internal nodes have been
      taken by it and the steps before it. */
  datatype Merge = Merge(x: nat, y: nat, r: nat)

  ghost function Weight(m: Merge): nat { m.x + m.y }

  ghost function Prefix(w: seq<nat>, i: nat): nat
    requires i <= |w|
  {
    if i == 0 then 0 else Prefix(w, i - 1) + w[i - 1]
  }

  ghost function SumW(t: seq<Merge>, i: nat): nat
    requires i <= |t|
  {
    if i == 0 then 0 else SumW(t, i - 1) + Weight(t[i - 1])
  }

  /** How many leaves steps 0..k have taken. */
  ghost function Leaves(t: seq<Merge>, k: nat): int
    requires k < |t|
  {
    2 * (k + 1) - t[k].r
  }

  ghost predicate Sorted(w: seq<nat>)
  {
    forall i, j :: 0 <= i <= j < |w| ==> w[i] <= w[j]
  }

  /** `r` internal nodes of the first `m` and `l` leaves are taken; everything
      taken weighs at most `z`, everything left at least `z`. */
  ghost predicate Cut(w: seq<nat>, t: seq<Merge>, m: nat, r: nat, l: nat, z: nat)
  {
    && r <= m <= |t| && l <= |w|
    && (forall i :: 0 <= i < l ==> w[i] <= z)
    && (forall i :: l <= i < |w| ==> z <= w[i])
    && (forall e :: 0 <= e < r ==> Weight(t[e]) <= z)
    && (forall e :: r <= e < m ==> z <= Weight(t[e]))
  }

  ghost predicate MergeOk(w: seq<nat>, t: seq<Merge>, k: nat)
    requires k < |t|
  {
    && t[k].r <= k && 0 <= Leaves(t, k) <= |w|
    && 1 <= t[k].x <= t[k].y
    && Cut(w, t, k + 1, t[k].r, Leaves(t, k), t[k].y)
    && SumW(t, k + 1) == Prefix(w, Leaves(t, k)) + SumW(t, t[k].r)
    && (k == 0 ==> t[k].r == 0)
    && (k > 0 ==> t[k - 1].r <= t[k].r <= t[k - 1].r + 2 && t[k - 1].y <= t[k].x)
  }

  ghost predicate IsTree(w: seq<nat>, t: seq<Merge>)
  {
    |t| < |w| && Sorted(w) && (forall i :: 0 <= i < |w| ==> w[i] >= 1)
    && forall k :: 0 <= k < |t| ==> MergeOk(w, t, k)
  }

  // ---------------------------------------------------------- growing the tree

  lemma {:induction false} WeightsSorted(w: seq<nat>, t: seq<Merge>, a: nat, b: nat)
    requires IsTree(w, t) && a <= b < |t|
    ensures Weight(t[a]) <= Weight(t[b])
    decreases b - a
  {
    if a == b {
    } else {
      WeightsSorted(w, t, a, b - 1);
      assert MergeOk(w, t, b) && MergeOk(w, t, b - 1);
    }
  }

  lemma PickLeaf(w: seq<nat>, t: seq<Merge>, r: nat, l: nat, z: nat)
    requires IsTree(w, t) && Cut(w, t, |t|, r, l, z) && l < |w|
    requires r < |t| ==> w[l] <= Weight(t[r])
    ensures z <= w[l] && Cut(w, t, |t|, r, l + 1, w[l])
    ensures Prefix(w, l + 1) == Prefix(w, l) + w[l]
  {
    forall e | r <= e < |t| ensures w[l] <= Weight(t[e]) { WeightsSorted(w, t, r, e); }
    forall e | 0 <= e < r ensures Weight(t[e]) <= w[l] { assert Weight(t[e]) <= z <= w[l]; }
  }

  lemma PickInternal(w: seq<nat>, t: seq<Merge>, r: nat, l: nat, z: nat)
    requires IsTree(w, t) && Cut(w, t, |t|, r, l, z) && r < |t|
    requires l < |w| ==> Weight(t[r]) <= w[l]
    ensures z <= Weight(t[r]) && Cut(w, t, |t|, r + 1, l, Weight(t[r]))
    ensures SumW(t, r + 1) == SumW(t, r) + Weight(t[r])
  {
    forall e | r <= e < |t| ensures Weight(t[r]) <= Weight(t[e]) { WeightsSorted(w, t, r, e); }
  }

  lemma {:induction false} SumWPrefix(t: seq<Merge>, m: Merge, i: nat)
    requires i <= |t|
    ensures SumW(t + [m], i) == SumW(t, i)
  {
    if i == 0 {
    } else {
      SumWPrefix(t, m, i - 1);
    }
  }

  /** What the pass knows before step |t|. */
  ghost predicate Ready(w: seq<nat>, t: seq<Merge>, r: nat, l: nat, z: nat)
  {
    && IsTree(w, t) && Cut(w, t, |t|, r, l, z)
    && SumW(t, |t|) == Prefix(w, l) + SumW(t, r)
    && r + l == 2 * |t|
    && (|t| == 0 ==> r == 0 && l == 0)
    && (|t| > 0 ==> r == t[|t| - 1].r && z == t[|t| - 1].y && r < |t|)
  }

  lemma MergeOkKept(w: seq<nat>, t: seq<Merge>, m: Merge, k: nat)
    requires k < |t| && MergeOk(w, t, k)
    ensures MergeOk(w, t + [m], k)
  {
    var t' := t + [m];
    SumWPrefix(t, m, k + 1);
    SumWPrefix(t, m, t[k].r);
    assert Leaves(t', k) == Leaves(t, k);
    assert forall e :: 0 <= e <= k ==> t'[e] == t[e];
  }

  lemma TreeGrows(w: seq<nat>, t: seq<Merge>, m: Merge)
    requires IsTree(w, t) && |t| + 1 < |w| && MergeOk(w, t + [m], |t|)
    ensures IsTree(w, t + [m])
  {
    var t' := t + [m];
    forall k | 0 <= k < |t'| ensures MergeOk(w, t', k) {
      if k < |t| { MergeOkKept(w, t, m, k); }
    }
  }

  lemma SumWLast(t: seq<Merge>)
    requires t != []
    ensures SumW(t, |t|) == SumW(t, |t| - 1) + Weight(t[|t| - 1])
  {
  }

  lemma LastOk(w: seq<nat>, t: seq<Merge>, r: nat, l: nat, z: nat, m: Merge, l2: nat)
    requires Ready(w, t, r, l, z) && |t| + 1 < |w|
    requires r <= m.r <= r + 2 && m.r + l2 == r + l + 2 && m.r <= |t|
    requires z <= m.x <= m.y && 1 <= m.x && Cut(w, t, |t|, m.r, l2, m.y)
    requires Prefix(w, l2) + SumW(t, m.r) == Prefix(w, l) + SumW(t, r) + m.x + m.y
    ensures MergeOk(w, t + [m], |t|) && Cut(w, t + [m], |t| + 1, m.r, l2, m.y)
  {
    hide IsTree, SumW, Prefix;
    var t' := t + [m];
    var n := |t|;
    SumWPrefix(t, m, n);
    SumWPrefix(t, m, m.r);
    SumWLast(t');
    assert t'[n] == m && t'[..n] == t;
    assert forall e :: 0 <= e < n ==> t'[e] == t[e];
    assert Leaves(t', n) == l2;
  }

  /** Two picks in order make one more step. */
  lemma Extend(w: seq<nat>, t: seq<Merge>, r: nat, l: nat, z: nat, r2: nat, l2: nat, x: nat, y: nat)
    requires Ready(w, t, r, l, z) && |t| + 1 < |w|
    requires r <= r2 <= r + 2 && r2 + l2 == r + l + 2 && r2 <= |t|
    requires z <= x <= y && 1 <= x && Cut(w, t, |t|, r2, l2, y)
    requires Prefix(w, l2) + SumW(t, r2) == Prefix(w, l) + SumW(t, r) + x + y
    ensures Ready(w, t + [Merge(x, y, r2)], r2, l2, y)
  {
    hide IsTree, Cut, MergeOk, SumW, Prefix;
    var m := Merge(x, y, r2);
    var t' := t + [m];
    assert |t'| == |t| + 1 && t'[|t|] == m;
    LastOk(w, t, r, l, z, m, l2);
    TreeGrows(w, t, m);
    SumWPrefix(t, m, |t|);
    SumWPrefix(t, m, r2);
    SumWLast(t');
  }

  lemma {:induction false} PrefixMono(w: seq<nat>, i: nat, j: nat)
    requires i <= j <= |w|
    ensures Prefix(w, i) <= Prefix(w, j)
    decreases j - i
  {
    if i == j {
    } else {
      PrefixMono(w, i, j - 1);
    }
  }

  lemma {:induction false} SumWMono(t: seq<Merge>, i: nat, j: nat)
    requires i <= j <= |t|
    ensures SumW(t, i) <= SumW(t, j)
    decreases j - i
  {
    if i == j {
    } else {
      SumWMono(t, i, j - 1);
    }
  }

  function Fib(d: nat): nat
  {
    if d == 0 then 1 else if d == 1 then 2 else Fib(d - 1) + Fib(d - 2)
  }

  /** A symbol of weight `x` can have a code of `d` bits when all weigh `total`. */
  ghost predicate Share(x: nat, d: nat, total: nat)
  {
    d >= 1 ==> x * Fib(d - 1) <= total
  }

  /** No internal node outweighs all the leaves. */
  lemma WeightBound(w: seq<nat>, t: seq<Merge>, k: nat)
    requires IsTree(w, t) && k < |t|
    ensures Weight(t[k]) <= Prefix(w, |w|)
  {
    assert MergeOk(w, t, k);
    SumWMono(t, t[k].r, k);
    PrefixMono(w, Leaves(t, k), |w|);
  }

  // ------------------------------------------------------------------- levels

  /** The last internal node of depth `d`, -1 when there is none. */
  ghost function Level(t: seq<Merge>, d: nat): (b: int)
    requires forall k :: 0 <= k < |t| ==> t[k].r <= k
    ensures -1 <= b < |t|
  {
    if d == 0 then |t| - 1
    else
      var b := Level(t, d - 1);
      if b < 0 then -1 else t[b].r - 1
  }

  lemma TreeR(w: seq<nat>, t: seq<Merge>)
    requires IsTree(w, t)
    ensures forall k :: 0 <= k < |t| ==> t[k].r <= k
  {
    forall k | 0 <= k < |t| ensures t[k].r <= k { assert MergeOk(w, t, k); }
  }

  lemma {:induction false} YBelowX(w: seq<nat>, t: seq<Merge>, c: nat, b: nat)
    requires IsTree(w, t) && c < b < |t|
    ensures t[c].y <= t[b].x
    decreases b - c
  {
    assert MergeOk(w, t, b);
    if c + 1 == b {
    } else {
      YBelowX(w, t, c, b - 1);
      assert MergeOk(w, t, b - 1);
    }
  }

  /** A node outweighs the last nodes of the next two levels together. */
  lemma TwoLevels(w: seq<nat>, t: seq<Merge>, b: nat)
    requires IsTree(w, t) && b < |t|
    ensures t[b].r <= b
    ensures t[b].r > 0 ==>
      var c := t[b].r - 1;
      Weight(t[b]) >= 1 + Weight(t[c]) && t[c].r <= c &&
      (t[c].r > 0 ==> Weight(t[b]) >= Weight(t[c]) + Weight(t[t[c].r - 1]))
  {
    assert MergeOk(w, t, b);
    if t[b].r > 0 {
      var c := t[b].r - 1;
      assert MergeOk(w, t, c);
      assert Weight(t[c]) <= t[b].y;
      YBelowX(w, t, c, b);
      if t[c].r > 0 {
        assert Weight(t[t[c].r - 1]) <= t[c].y;
      }
    }
  }

  lemma AtLeastTwo(w: seq<nat>, t: seq<Merge>, b: nat)
    requires IsTree(w, t) && b < |t|
    ensures Weight(t[b]) >= 2
  {
    assert MergeOk(w, t, b);
  }

  lemma {:induction false} LevelsAbove(t: seq<Merge>, j: nat, d: nat)
    requires forall k :: 0 <= k < |t| ==> t[k].r <= k
    requires j <= d && Level(t, d) >= 0
    ensures Level(t, j) >= 0
    decreases d - j
  {
    if j == d {
    } else {
      LevelsAbove(t, j, d - 1);
    }
  }

  /** Depth costs weight at the rate of the Fibonacci numbers. */
  /** The weight of a level, from those of the two below it. */
  lemma LevelWeight(w: seq<nat>, t: seq<Merge>, j: nat, d: nat)
    requires IsTree(w, t) && j < d
    requires forall k :: 0 <= k < |t| ==> t[k].r <= k
    requires Level(t, j) >= 0
    requires j + 1 < d ==> Level(t, j + 1) >= 0 && Weight(t[Level(t, j + 1)]) >= Fib(d - j - 1)
    requires j + 2 < d ==> Level(t, j + 2) >= 0 && Weight(t[Level(t, j + 2)]) >= Fib(d - j - 2)
    ensures Weight(t[Level(t, j)]) >= Fib(d - j)
  {
    hide IsTree, Weight, MergeOk;
    var b := Level(t, j);
    AtLeastTwo(w, t, b);
    TwoLevels(w, t, b);
    assert j + 1 < d ==> Level(t, j + 1) == t[b].r - 1;
    assert j + 2 < d ==> Level(t, j + 2) == t[t[b].r - 1].r - 1;
  }

  lemma {:induction false} FibonacciWeight(w: seq<nat>, t: seq<Merge>, j: nat, d: nat)
    requires IsTree(w, t) && j < d
    requires forall k :: 0 <= k < |t| ==> t[k].r <= k
    requires Level(t, d - 1) >= 0
    ensures Level(t, j) >= 0 && Weight(t[Level(t, j)]) >= Fib(d - j)
    decreases d - j
  {
    hide IsTree, Weight, MergeOk, Level, Fib;
    LevelsAbove(t, j, d - 1);
    if j + 1 == d {
    } else {
      LevelsAbove(t, j + 1, d - 1);
      FibonacciWeight(w, t, j + 1, d);
      if j + 2 < d {
        LevelsAbove(t, j + 2, d - 1);
        FibonacciWeight(w, t, j + 2, d);
      }
    }
    LevelWeight(w, t, j, d);
  }

  lemma ShareSmall(x: nat)
    ensures x * Fib(0) == x && x * Fib(1) == x + x
  {
  }

  lemma ShareSum(x: nat, n: nat)
    requires n >= 2
    ensures x * Fib(n) == x * Fib(n - 1) + x * Fib(n - 2)
  {
    assert Fib(n) == Fib(n - 1) + Fib(n - 2);
  }

  lemma NodeOrder(w: seq<nat>, t: seq<Merge>, b: nat)
    requires IsTree(w, t) && b < |t|
    ensures t[b].x <= t[b].y && Weight(t[b]) == t[b].x + t[b].y
  {
    assert MergeOk(w, t, b);
  }

  /** A leaf of depth `d` weighs at most its Fibonacci share of the root. */
  lemma {:induction false} LeafShare(w: seq<nat>, t: seq<Merge>, j: nat, d: nat, x: nat)
    requires IsTree(w, t) && j < d
    requires forall k :: 0 <= k < |t| ==> t[k].r <= k
    requires Level(t, d - 1) >= 0 && x <= t[Level(t, d - 1)].y
    ensures Level(t, j) >= 0 && x * Fib(d - 1 - j) <= Weight(t[Level(t, j)])
    decreases d - j
  {
    hide IsTree, MergeOk, Fib, Weight;
    LevelsAbove(t, j, d - 1);
    var b := Level(t, j);
    NodeOrder(w, t, b);
    ShareSmall(x);
    if j + 1 < d {
      LevelsAbove(t, j + 1, d - 1);
      var c := Level(t, j + 1);
      assert c == t[b].r - 1;
      LeafShare(w, t, j + 1, d, x);
      if j + 2 < d {
        LevelsAbove(t, j + 2, d - 1);
        LeafShare(w, t, j + 2, d, x);
        TwoLevels(w, t, b);
        assert Level(t, j + 2) == t[c].r - 1;
        ShareSum(x, d - 1 - j);
      } else {
        YBelowX(w, t, c, b);
      }
    }
  }

  /** Every leaf that hangs at depth `d` or above. */
  lemma LevelShare(w: seq<nat>, t: seq<Merge>, d: nat, i: nat)
    requires IsTree(w, t) && d >= 1
    requires forall k :: 0 <= k < |t| ==> t[k].r <= k
    requires Level(t, d - 1) >= 0 && i < Leaves(t, Level(t, d - 1)) && i < |w|
    ensures Share(w[i], d, Prefix(w, |w|))
  {
    hide Fib;
    var b := Level(t, d - 1);
    assert MergeOk(w, t, b);
    LeafShare(w, t, 0, d, w[i]);
    WeightBound(w, t, Level(t, 0));
  }

  const MAX_DEPTH: nat := 22

  lemma Fib23()
    ensures Fib(MAX_DEPTH + 1) == 75025
  {
    assert Fib(10) == 144;
    assert Fib(11) == 233;
    assert Fib(16) == 2584;
    assert Fib(17) == 4181;
    assert Fib(22) == 46368;
  }

  lemma {:induction false} FibMono(a: nat, b: nat)
    requires a <= b
    ensures 1 <= Fib(a) <= Fib(b)
    decreases b
  {
    if a < b {
      FibMono(a, b - 1);
    } else if b > 0 {
      FibMono(b - 1, b - 1);
    }
  }

  /** With 16-bit totals no code is longer than 22 bits. */
  lemma DepthBound(w: seq<nat>, t: seq<Merge>, d: nat)
    requires IsTree(w, t) && d >= 1 && Prefix(w, |w|) < 65536
    requires forall k :: 0 <= k < |t| ==> t[k].r <= k
    requires Level(t, d - 1) >= 0
    ensures d <= MAX_DEPTH
  {
    hide Cut, Weight, Level, Prefix, SumW, Fib;
    FibonacciWeight(w, t, 0, d);
    WeightBound(w, t, Level(t, 0));
    if d > MAX_DEPTH {
      Fib23();
      FibMono(MAX_DEPTH + 1, d);
      assert false;
    }
  }

  // -------------------------------------------------------------------- depth

  /** `m` is the step that took internal node `e`. */
  ghost predicate IsParent(t: seq<Merge>, e: nat, m: nat)
  {
    e < m < |t| && e < t[m].r && t[m - 1].r <= e
  }

  ghost predicate Parents(t: seq<Merge>, par: seq<nat>)
  {
    forall e :: 0 <= e < |par| ==> IsParent(t, e, par[e])
  }

  ghost function Depth(t: seq<Merge>, par: seq<nat>, e: nat): nat
    requires Parents(t, par)
    decreases |t| - e
  {
    if e >= |par| || e >= |t| then 0 else 1 + Depth(t, par, par[e])
  }

  lemma {:induction false} RMono(w: seq<nat>, t: seq<Merge>, a: nat, b: nat)
    requires IsTree(w, t) && a <= b < |t|
    ensures t[a].r <= t[b].r && Leaves(t, a) <= Leaves(t, b)
    decreases b - a
  {
    if a == b {
    } else {
      RMono(w, t, a, b - 1);
      assert MergeOk(w, t, b);
    }
  }

  /** The last step takes everything. */
  lemma LastR(w: seq<nat>, t: seq<Merge>)
    requires IsTree(w, t)
    ensures t != [] && |t| == |w| - 1 ==> t[|t| - 1].r == |t| - 1 && Leaves(t, |t| - 1) == |w|
  {
    if t != [] && |t| == |w| - 1 { assert MergeOk(w, t, |t| - 1); }
  }

  /** The nodes between two level marks are exactly those of that depth. */
  lemma {:induction false} LevelDepth(w: seq<nat>, t: seq<Merge>, par: seq<nat>, d: nat, e: nat)
    requires IsTree(w, t) && |t| == |w| - 1 && Parents(t, par) && |par| == |t| - 1
    requires forall k :: 0 <= k < |t| ==> t[k].r <= k
    requires Level(t, d + 1) < e <= Level(t, d)
    ensures Depth(t, par, e) == d
    decreases d
  {
    if d == 0 {
      LastR(w, t);
      assert e == |t| - 1;
    } else {
      var b := Level(t, d - 1);
      assert b >= 0 && e < t[b].r;
      var m := par[e];
      assert IsParent(t, e, m);
      if m > b {
        RMono(w, t, b, m - 1);
        assert false;
      }
      if m <= Level(t, d) {
        RMono(w, t, m, Level(t, d));
        assert false;
      }
      LevelDepth(w, t, par, d - 1, m);
    }
  }
}
