/**
  Moffat and Katajainen's in-place calculation of minimum-redundancy code
  lengths. One array holds, in turn, the sorted weights, the parents of the
  internal nodes, their depths, and finally the lengths of the leaves.
 */
module MinRedundancy {
  import opened Bits
  import opened RadixSort
  import opened MergeTree
  import opened OptimalCode

  ghost function Keys(a: seq<SymFreq>): (r: seq<nat>)
    ensures |r| == |a|
  {
    seq(|a|, i requires 0 <= i < |a| => a[i].key)
  }

  ghost predicate SameSyms(a: seq<SymFreq>, b: seq<SymFreq>)
  {
    |a| == |b| && forall i :: 0 <= i < |a| ==> a[i].sym == b[i].sym
  }

  // ------------------------------------------------- first pass: the parents

  /** What the array holds while the tree grows: parents of the nodes taken,
      weights of the nodes waiting, weights of the leaves waiting. */
  ghost predicate Held(a: seq<SymFreq>, n: nat, w: seq<nat>, t: seq<Merge>, par: seq<nat>, root: nat, leaf: nat)
  {
    && |w| == n <= |a| && root <= |t| < n && leaf <= n && |par| == root
    && (forall e :: 0 <= e < root ==> a[e].key == par[e])
    && (forall e :: root <= e < |t| ==> a[e].key == Weight(t[e]))
    && (forall i :: leaf <= i < n ==> a[i].key == w[i])
  }

  lemma ParentsKept(t: seq<Merge>, m: Merge, par: seq<nat>, more: nat)
    requires Parents(t, par) && |par| <= |t| && m.r == |par| + more
    requires t != [] ==> t[|t| - 1].r == |par|
    requires t == [] ==> |par| == 0 && more == 0
    requires m.r <= |t|
    ensures Parents(t + [m], par + seq(more, i => |t|))
  {
    var par', t' := par + seq(more, i => |t|), t + [m];
    forall e | 0 <= e < |par'| ensures IsParent(t', e, par'[e]) {
      if e < |par| { assert IsParent(t, e, par[e]); }
    }
  }

  /** Take the lighter of the two queue heads; an internal node that is taken
      gets its parent. The first of the two picks of a step never finds the
      internal queue empty, so both picks can use the same guard. */
  method Take(a: array<SymFreq>, n: nat, next: nat, root0: nat, leaf0: nat,
              ghost w: seq<nat>, ghost t: seq<Merge>, ghost par: seq<nat>, ghost z: nat)
    returns (v: nat, root: nat, leaf: nat, ghost par': seq<nat>)
    requires n <= a.Length && next == |t| < leaf0 && root0 + leaf0 < n + next
    requires IsTree(w, t) && Cut(w, t, |t|, root0, leaf0, z) && Held(a[..], n, w, t, par, root0, leaf0)
    modifies a
    ensures Cut(w, t, |t|, root, leaf, v) && z <= v && Held(a[..], n, w, t, par', root, leaf) && leaf <= |w|
    ensures Prefix(w, leaf) + SumW(t, root) == Prefix(w, leaf0) + SumW(t, root0) + v
    ensures (root == root0 && leaf == leaf0 + 1 && par' == par)
      || (root == root0 + 1 && leaf == leaf0 && par' == par + [next])
    ensures SameSyms(a[..], old(a[..])) && a[n..] == old(a[n..]) && a[next] == old(a[next])
  {
    hide IsTree, Prefix, SumW;
    root, leaf, par' := root0, leaf0, par;
    if leaf >= n || (root < next && a[root].key < a[leaf].key) {
      v := a[root].key;
      PickInternal(w, t, root, leaf, z);
      a[root] := a[root].(key := next);
      root, par' := root + 1, par + [next];
    } else {
      v := a[leaf].key;
      PickLeaf(w, t, root, leaf, z);
      leaf := leaf + 1;
    }
  }

  lemma ReadyFacts(w: seq<nat>, t: seq<Merge>, r: nat, l: nat, z: nat)
    requires Ready(w, t, r, l, z)
    ensures IsTree(w, t) && Cut(w, t, |t|, r, l, z) && r + l == 2 * |t| && r <= |t| && l <= |w|
    ensures SumW(t, |t|) == Prefix(w, l) + SumW(t, r)
    ensures |t| == 0 ==> r == 0
    ensures |t| > 0 ==> r == t[|t| - 1].r && r < |t| && 1 <= z
  {
    if |t| > 0 { assert MergeOk(w, t, |t| - 1); }
  }

  lemma StepEntry(a: seq<SymFreq>, n: nat, w: seq<nat>, t: seq<Merge>, par: seq<nat>, r: nat, l: nat, z: nat)
    requires Ready(w, t, r, l, z) && Held(a, n, w, t, par, r, l) && 1 <= |t| < n - 1
    ensures |w| == n && |par| == r && IsTree(w, t) && Cut(w, t, |t|, r, l, z)
    ensures r + l == 2 * |t| && r < |t| < l && l <= n
  {
    hide IsTree, Cut;
    ReadyFacts(w, t, r, l, z);
  }

  /** Between the two picks entry `next` is free. */
  lemma HeldElsewhere(a: seq<SymFreq>, n: nat, w: seq<nat>, t: seq<Merge>, par: seq<nat>, root: nat, leaf: nat, v: nat)
    requires Held(a, n, w, t, par, root, leaf) && |t| < leaf
    ensures Held(a[|t| := a[|t|].(key := v)], n, w, t, par, root, leaf)
  {
  }

  lemma HeldNext(a: seq<SymFreq>, n: nat, w: seq<nat>, t: seq<Merge>, par: seq<nat>, root: nat, leaf: nat, m: Merge)
    requires Held(a, n, w, t, par, root, leaf) && |t| + 1 < n && |t| < leaf
    ensures Held(a[|t| := a[|t|].(key := m.x + m.y)], n, w, t + [m], par, root, leaf)
  {
  }

  lemma StepFacts(w: seq<nat>, t: seq<Merge>, r0: nat, l0: nat, z: nat, r: nat, l: nat, x: nat, y: nat, par: seq<nat>)
    requires Ready(w, t, r0, l0, z) && 1 <= |t| && |t| + 1 < |w| && Parents(t, par) && |par| == r0
    requires r0 <= r <= r0 + 2 && r + l == r0 + l0 + 2 && l <= |w|
    requires z <= x <= y && Cut(w, t, |t|, r, l, y)
    requires Prefix(w, l) + SumW(t, r) == Prefix(w, l0) + SumW(t, r0) + x + y
    ensures Ready(w, t + [Merge(x, y, r)], r, l, y) && r <= |t| && x + y <= Prefix(w, |w|)
    ensures Parents(t + [Merge(x, y, r)], par + seq(r - r0, i => |t|))
  {
    hide Ready, IsTree, Prefix, SumW, Parents;
    var m := Merge(x, y, r);
    ReadyFacts(w, t, r0, l0, z);
    Extend(w, t, r0, l0, z, r, l, x, y);
    ParentsKept(t, m, par, r - r0);
    ReadyFacts(w, t + [m], r, l, y);
    WeightBound(w, t + [m], |t|);
    assert (t + [m])[|t|] == m;
  }

  /** One step of the first loop: merge the two lightest into node `next`. */
  method MergeStep(a: array<SymFreq>, n: nat, next: nat, root0: nat, leaf0: nat,
                   ghost w: seq<nat>, ghost t: seq<Merge>, ghost par: seq<nat>, ghost z: nat)
    returns (root: nat, leaf: nat, ghost t': seq<Merge>, ghost par': seq<nat>, ghost z': nat)
    requires n <= a.Length && next == |t| && 1 <= next < n - 1 && n < 65536
    requires Ready(w, t, root0, leaf0, z) && Held(a[..], n, w, t, par, root0, leaf0) && Parents(t, par)
    requires Prefix(w, n) < 65536
    modifies a
    ensures |t'| == next + 1 && Ready(w, t', root, leaf, z')
    ensures Held(a[..], n, w, t', par', root, leaf) && Parents(t', par')
    ensures SameSyms(a[..], old(a[..])) && a[n..] == old(a[n..])
  {
    hide Ready, IsTree, Cut, Prefix, SumW, Parents, Held;
    var x, y;
    ghost var par1;
    StepEntry(a[..], n, w, t, par, root0, leaf0, z);
    x, root, leaf, par1 := Take(a, n, next, root0, leaf0, w, t, par, z);
    HeldElsewhere(a[..], n, w, t, par1, root, leaf, x);
    a[next] := a[next].(key := x);
    y, root, leaf, par' := Take(a, n, next, root, leaf, w, t, par1, x);
    z', t' := y, t + [Merge(x, y, root)];
    assert par' == par + seq(root - root0, i => next);
    StepFacts(w, t, root0, leaf0, z, root, leaf, x, y, par);
    HeldNext(a[..], n, w, t, par', root, leaf, Merge(x, y, root));
    assert a[next].key == x && x + y < 65536;
    a[next] := a[next].(key := (a[next].key + y) % 65536);
  }

  /** The first two leaves make the first internal node. */
  lemma FirstMerge(w: seq<nat>)
    requires |w| >= 2 && Sorted(w) && forall i :: 0 <= i < |w| ==> w[i] >= 1
    ensures Ready(w, [Merge(w[0], w[1], 0)], 0, 2, w[1])
    ensures w[0] + w[1] <= Prefix(w, |w|)
  {
    hide Sorted;
    var t: seq<Merge> := [];
    assert Prefix(w, 0) == 0 && SumW(t, 0) == 0;
    PickLeaf(w, t, 0, 0, 0);
    PickLeaf(w, t, 0, 1, w[0]);
    PrefixMono(w, 2, |w|);
    if |w| > 2 {
      Extend(w, t, 0, 0, 0, 0, 2, w[0], w[1]);
      assert t + [Merge(w[0], w[1], 0)] == [Merge(w[0], w[1], 0)];
    } else {
      var m := Merge(w[0], w[1], 0);
      assert SumW([m], 1) == w[0] + w[1];
      assert MergeOk(w, [m], 0);
    }
  }

  /** First loop: the two queues are merged until one node is left. */
  method BuildTree(a: array<SymFreq>, n: nat, ghost w: seq<nat>) returns (ghost t: seq<Merge>, ghost par: seq<nat>)
    requires 2 <= n <= a.Length && n < 65536 && w == Keys(a[..n])
    requires Sorted(w) && (forall i :: 0 <= i < n ==> w[i] >= 1) && Prefix(w, n) < 65536
    modifies a
    ensures |t| == n - 1 && IsTree(w, t) && Parents(t, par) && |par| == n - 2
    ensures forall e :: 0 <= e < n - 2 ==> a[e].key == par[e]
    ensures SameSyms(a[..], old(a[..])) && a[n..] == old(a[n..])
  {
    hide Ready, IsTree, Cut, Prefix, SumW;
    t, par := [Merge(w[0], w[1], 0)], [];
    ghost var z := w[1];
    FirstMerge(w);
    a[0] := a[0].(key := (a[0].key + a[1].key) % 65536);
    var root, leaf, next := 0, 2, 1;
    while next < n - 1
      invariant 1 <= next <= n - 1 && |t| == next
      invariant Ready(w, t, root, leaf, z) && Held(a[..], n, w, t, par, root, leaf) && Parents(t, par)
      invariant SameSyms(a[..], old(a[..])) && a[n..] == old(a[n..])
    {
      root, leaf, t, par, z := MergeStep(a, n, next, root, leaf, w, t, par, z);
      next := next + 1;
    }
    ReadyFacts(w, t, root, leaf, z);
    LastR(w, t);
  }

  // ------------------------------------------------- second pass: the depths

  /** Second loop: parents become depths, from the root down. */
  method Depths(a: array<SymFreq>, n: nat, ghost t: seq<Merge>, ghost par: seq<nat>)
    requires 2 <= n <= a.Length && n < 65536 && |t| == n - 1 && Parents(t, par) && |par| == n - 2
    requires forall e :: 0 <= e < n - 2 ==> a[e].key == par[e]
    modifies a
    ensures forall e :: 0 <= e < n - 1 ==> a[e].key == Depth(t, par, e)
    ensures SameSyms(a[..], old(a[..])) && a[n..] == old(a[n..])
  {
    a[n - 2] := a[n - 2].(key := 0);
    var next := n - 3;
    while next >= 0
      invariant -1 <= next <= n - 3
      invariant forall e :: next < e < n - 1 ==> a[e].key == Depth(t, par, e)
      invariant forall e :: 0 <= e <= next ==> a[e].key == par[e]
      invariant SameSyms(a[..], old(a[..])) && a[n..] == old(a[n..])
    {
      assert IsParent(t, next, par[next]);
      a[next] := a[next].(key := a[a[next].key].key + 1);
      next := next - 1;
    }
  }

  // ------------------------------------------------- third pass: the lengths

  /** How many leaves lie at depth `d` or deeper. */
  ghost function LeavesLeft(t: seq<Merge>, n: nat, d: nat): int
    requires forall k :: 0 <= k < |t| ==> t[k].r <= k
  {
    if d == 0 then n
    else
      var b := Level(t, d - 1);
      if b < 0 then 0 else Leaves(t, b)
  }

  /** One level: its internal nodes, its leaves, and what lies below. */
  lemma LevelFacts(w: seq<nat>, t: seq<Merge>, d: nat)
    requires IsTree(w, t) && |t| == |w| - 1
    requires forall k :: 0 <= k < |t| ==> t[k].r <= k
    ensures var b, c := Level(t, d), Level(t, d + 1);
            && c <= b && (b >= 0 ==> c < b)
            && LeavesLeft(t, |w|, d + 1) == 2 * b - c + 1
            && 0 <= LeavesLeft(t, |w|, d + 1) <= LeavesLeft(t, |w|, d) <= |w|
            && SumW(t, b + 1) == SumW(t, c + 1) + Prefix(w, LeavesLeft(t, |w|, d + 1))
  {
    var b := Level(t, d);
    assert Level(t, d + 1) == if b < 0 then -1 else t[b].r - 1;
    if b >= 0 { assert MergeOk(w, t, b); }
    if d > 0 {
      var a := Level(t, d - 1);
      if a >= 0 {
        assert MergeOk(w, t, a);
        if b >= 0 { RMono(w, t, b, a); }
      }
    }
  }

  /** A level that still has room lies above the depth bound. */
  lemma RoomMeansShallow(w: seq<nat>, t: seq<Merge>, d: nat, avbl: int)
    requires IsTree(w, t) && |t| == |w| - 1 && Prefix(w, |w|) < 65536
    requires forall k :: 0 <= k < |t| ==> t[k].r <= k
    requires LeavesLeft(t, |w|, d) == avbl + Level(t, d) + 1 && avbl > 0
    ensures d <= MAX_DEPTH
  {
    if d > 0 {
      if Level(t, d - 1) < 0 {
        assert false;
      }
      DepthBound(w, t, d);
    }
  }

  /** The lengths written: bounded, falling with the weight, and each with the
      weight that its depth allows. */
  ghost predicate LensOk(w: seq<nat>, l: seq<nat>, left: nat, d: nat)
  {
    && left <= |w| && |l| == |w| - left && d <= 32
    && (forall i :: 0 <= i < |l| ==> 1 <= l[i] <= d && l[i] <= MAX_DEPTH)
    && (forall i, j :: 0 <= i <= j < |l| ==> l[i] >= l[j])
    && (forall i :: 0 <= i < |l| ==> Share(w[left + i], l[i], Prefix(w, |w|)))
  }

  lemma LensLeaf(w: seq<nat>, l: seq<nat>, left: nat, d: nat)
    requires LensOk(w, l, left, d) && left > 0 && 1 <= d <= MAX_DEPTH && Share(w[left - 1], d, Prefix(w, |w|))
    ensures LensOk(w, [d] + l, left - 1, d)
  {
    hide Share, Prefix;
    var l', total := [d] + l, Prefix(w, |w|);
    forall i | 0 <= i < |l'| ensures Share(w[left - 1 + i], l'[i], total) {
      if i > 0 { assert Share(w[left + (i - 1)], l[i - 1], total); }
    }
  }

  /** Kraft and cost accounts while leaves are being written: `l` are the
      lengths written, the first `left` leaves are still to come. */
  ghost predicate Account(w: seq<nat>, l: seq<nat>, left: nat, d: nat, avbl: nat, below: nat, total: nat)
  {
    && LensOk(w, l, left, d)
    && KraftSum(l, 32) + avbl * Pow2(32 - d) == Pow2(32)
    && Cost(w[left..], l) + d * Prefix(w, left) + below == total
  }

  lemma PrefixLast(w: seq<nat>, i: nat)
    requires 0 < i <= |w|
    ensures Prefix(w, i) == Prefix(w, i - 1) + w[i - 1]
  {
  }

  lemma LeafArithmetic(k: nat, avbl: nat, p: nat, top: nat, cost: nat, d: nat, pf: nat, x: nat, below: nat, total: nat)
    requires avbl > 0
    ensures k + avbl * p == top ==> p + k + (avbl - 1) * p == top
    ensures cost + d * (pf + x) + below == total ==> x * d + cost + d * pf + below == total
  {
  }

  lemma CostFront(w: seq<nat>, i: nat, d: nat, l: seq<nat>)
    requires i < |w| && |l| == |w| - i - 1
    ensures Cost(w[i..], [d] + l) == w[i] * d + Cost(w[i + 1..], l)
  {
    assert w[i..][1..] == w[i + 1..] && ([d] + l)[1..] == l;
  }

  lemma AccountLeaf(w: seq<nat>, l: seq<nat>, left: nat, d: nat, avbl: nat, below: nat, total: nat)
    requires Account(w, l, left, d, avbl, below, total) && left > 0 && avbl > 0 && 1 <= d <= MAX_DEPTH
    requires Share(w[left - 1], d, Prefix(w, |w|))
    ensures Account(w, [d] + l, left - 1, d, avbl - 1, below, total)
  {
    hide KraftSum, Cost, Pow2, Prefix, Share;
    CostFront(w, left - 1, d, l);
    KraftCons(d, l, 32);
    LeafArithmetic(KraftSum(l, 32), avbl, Pow2(32 - d), Pow2(32),
                   Cost(w[left..], l), d, Prefix(w, left - 1), w[left - 1], below, total);
    LensLeaf(w, l, left, d);
    assert Prefix(w, left) == Prefix(w, left - 1) + w[left - 1] by { PrefixLast(w, left); }
  }

  lemma LevelArithmetic(k: nat, used: nat, p: nat, top: nat, cost: nat, d: nat, pf: nat, below: nat, total: nat)
    ensures k + used * (2 * p) == top ==> k + (2 * used) * p == top
    ensures cost + d * pf + (below + pf) == total ==> cost + (d + 1) * pf + below == total
  {
  }

  lemma AccountLevel(w: seq<nat>, l: seq<nat>, left: nat, d: nat, used: nat, below: nat, total: nat, below': nat)
    requires Account(w, l, left, d, used, below, total) && d <= MAX_DEPTH
    requires below == below' + Prefix(w, left)
    ensures Account(w, l, left, d + 1, 2 * used, below', total)
  {
    hide KraftSum, Cost, Prefix;
    assert Pow2(32 - d) == 2 * Pow2(31 - d);
    LevelArithmetic(KraftSum(l, 32), used, Pow2(31 - d), Pow2(32), Cost(w[left..], l), d, Prefix(w, left), below',
      total);
  }

  lemma StartAccount(w: seq<nat>, total: nat)
    ensures Account(w, [], |w|, 0, 1, total, total)
  {
    hide Pow2, Share, Prefix, Fib;
  }

  lemma EndAccount(w: seq<nat>, l: seq<nat>, d: nat, below: nat, total: nat)
    requires Account(w, l, 0, d, 0, below, total)
    ensures Account(w, l, 0, MAX_DEPTH, 0, below, total)
  {
    hide KraftSum, Cost, Pow2;
    assert Prefix(w, 0) == 0;
    assert d * 0 == 0 == MAX_DEPTH * 0;
    assert 0 * Pow2(32 - d) == 0 == 0 * Pow2(32 - MAX_DEPTH);
  }

  lemma EmptySum(t: seq<Merge>)
    ensures SumW(t, 0) == 0
  {
  }

  /** Count the internal nodes of one depth. */
  method CountLevel(a: array<SymFreq>, n: nat, root0: int, dpth: nat,
                    ghost w: seq<nat>, ghost t: seq<Merge>, ghost par: seq<nat>)
    returns (used: nat, root: int)
    requires n <= a.Length && IsTree(w, t) && |w| == n && |t| == n - 1 && Parents(t, par) && |par| == n - 2 && n >= 2
    requires forall k :: 0 <= k < |t| ==> t[k].r <= k
    requires root0 == Level(t, dpth)
    requires forall e :: 0 <= e <= root0 ==> a[e].key == Depth(t, par, e)
    ensures root == Level(t, dpth + 1) && used == root0 - root
  {
    used, root := 0, root0;
    LevelFacts(w, t, dpth);
    while root >= 0 && a[root].key == dpth
      invariant Level(t, dpth + 1) <= root <= root0 && used == root0 - root
      decreases root + 1
    {
      if root == Level(t, dpth + 1) {
        LevelFacts(w, t, dpth + 1);
        LevelDepth(w, t, par, dpth + 1, root);
        assert false;
      }
      used, root := used + 1, root - 1;
    }
    if root > Level(t, dpth + 1) {
      LevelDepth(w, t, par, dpth, root);
      assert false;
    }
  }

  ghost predicate AllShare(w: seq<nat>, n: nat, d: nat)
  {
    n <= |w| && forall i :: 0 <= i < n ==> Share(w[i], d, Prefix(w, |w|))
  }

  lemma ShareAt(w: seq<nat>, n: nat, d: nat, i: nat)
    requires AllShare(w, n, d) && i < n
    ensures i < |w| && Share(w[i], d, Prefix(w, |w|))
  {
  }

  /** Write the leaves of one depth. */
  method WriteLevel(a: array<SymFreq>, n: nat, next0: int, avbl0: nat, used: nat, dpth: nat,
                    ghost w: seq<nat>, ghost below: nat, ghost total: nat)
    returns (next: int)
    requires |w| == n <= a.Length && -1 <= next0 < n && used <= avbl0 && avbl0 - used <= next0 + 1
    requires avbl0 > used ==> 1 <= dpth <= MAX_DEPTH
    requires avbl0 > used ==> AllShare(w, next0 + 1, dpth)
    requires Account(w, Keys(a[next0 + 1..n]), next0 + 1, dpth, avbl0, below, total)
    modifies a
    ensures next == next0 - (avbl0 - used) && -1 <= next < n
    ensures Account(w, Keys(a[next + 1..n]), next + 1, dpth, used, below, total)
    ensures SameSyms(a[..], old(a[..])) && a[n..] == old(a[n..]) && a[..next + 1] == old(a[..next + 1])
  {
    hide Account, Share, Prefix, AllShare;
    var avbl := avbl0;
    next := next0;
    while avbl > used
      invariant used <= avbl <= avbl0 && next == next0 - (avbl0 - avbl) && -1 <= next < n
      invariant Account(w, Keys(a[next + 1..n]), next + 1, dpth, avbl, below, total)
      invariant SameSyms(a[..], old(a[..])) && a[n..] == old(a[n..]) && a[..next + 1] == old(a[..next + 1])
    {
      ghost var l := Keys(a[next + 1..n]);
      ShareAt(w, next0 + 1, dpth, next);
      a[next] := a[next].(key := dpth);
      assert Keys(a[next..n]) == [dpth] + l;
      AccountLeaf(w, l, next + 1, dpth, avbl, below, total);
      next, avbl := next - 1, avbl - 1;
    }
  }

  /** The nodes up to `root` still hold their depths. */
  ghost predicate InnerDepths(a: seq<SymFreq>, t: seq<Merge>, par: seq<nat>, root: int)
    requires Parents(t, par) && root < |t| && root < |a|
  {
    forall e :: 0 <= e <= root ==> a[e].key == Depth(t, par, e)
  }

  lemma InnerStays(a0: seq<SymFreq>, a: seq<SymFreq>, t: seq<Merge>, par: seq<nat>, root0: int, root: int)
    requires Parents(t, par) && root <= root0 < |t| && root0 < |a0| == |a| && InnerDepths(a0, t, par, root0)
    requires forall e :: 0 <= e <= root ==> a[e] == a0[e]
    ensures InnerDepths(a, t, par, root)
  {
    hide Depth, Parents;
  }

  /** The lengths behind `next`. */
  ghost function Written(a: seq<SymFreq>, next: int, n: nat): (l: seq<nat>)
    requires -1 <= next < n <= |a|
    ensures |l| == n - next - 1
  {
    Keys(a[next + 1..n])
  }

  lemma WrittenIs(a: seq<SymFreq>, next: int, n: nat)
    requires -1 <= next < n <= |a|
    ensures Written(a, next, n) == Keys(a[next + 1..n])
  {
  }

  /** Where the third loop stands: `root` is the last node of depth `dpth`,
      `next` the last leaf to be written, `avbl` the nodes of that depth. */
  ghost predicate AtLevel(a: seq<SymFreq>, n: nat, w: seq<nat>, t: seq<Merge>, par: seq<nat>,
                          avbl: nat, dpth: nat, root: int, next: int)
  {
    && |w| == n <= |a| && |t| == n - 1 && IsTree(w, t) && Parents(t, par) && |par| == n - 2 && n >= 2
    && (forall k :: 0 <= k < |t| ==> t[k].r <= k)
    && root == Level(t, dpth) && LeavesLeft(t, n, dpth) == next + 1 && next == avbl + root
    && -1 <= next < n && dpth <= MAX_DEPTH + 1 && (avbl == 0 ==> root < 0)
    && InnerDepths(a, t, par, root)
    && Account(w, Written(a, next, n), next + 1, dpth, avbl, SumW(t, root + 1), SumW(t, n - 1))
  }

  lemma LevelZero(t: seq<Merge>)
    requires forall k :: 0 <= k < |t| ==> t[k].r <= k
    ensures Level(t, 0) == |t| - 1
  {
  }

  lemma TreeLeaves(w: seq<nat>, t: seq<Merge>, b: nat)
    requires IsTree(w, t) && b < |t|
    ensures 0 <= Leaves(t, b) <= |w|
  {
    assert MergeOk(w, t, b);
  }

  lemma LevelShares(w: seq<nat>, t: seq<Merge>, d: nat, next: int)
    requires IsTree(w, t) && d >= 1 && next < |w|
    requires forall k :: 0 <= k < |t| ==> t[k].r <= k
    requires LeavesLeft(t, |w|, d) == next + 1
    ensures next >= -1 && AllShare(w, next + 1, d)
  {
    hide IsTree, Share, Prefix;
    if Level(t, d - 1) >= 0 { TreeLeaves(w, t, Level(t, d - 1)); }
    forall i | 0 <= i <= next ensures Share(w[i], d, Prefix(w, |w|)) {
      LevelShare(w, t, d, i);
    }
  }

  /** What the two inner loops may rely on. */
  lemma EnterLevel(a: seq<SymFreq>, n: nat, w: seq<nat>, t: seq<Merge>, par: seq<nat>,
                   avbl: nat, dpth: nat, root: int, next: int)
    requires AtLevel(a, n, w, t, par, avbl, dpth, root, next) && avbl > 0 && Prefix(w, |w|) < 65536
    ensures |w| == n <= |a| && |t| == n - 1 && IsTree(w, t) && Parents(t, par) && |par| == n - 2 && n >= 2
    ensures dpth <= MAX_DEPTH && root == Level(t, dpth) && -1 <= root < |t| && -1 <= next < n
    ensures forall k :: 0 <= k < |t| ==> t[k].r <= k
    ensures forall e :: 0 <= e <= root ==> a[e].key == Depth(t, par, e)
    ensures Account(w, Keys(a[next + 1..n]), next + 1, dpth, avbl, SumW(t, root + 1), SumW(t, n - 1))
    ensures var used := root - Level(t, dpth + 1);
            0 <= used <= avbl && avbl - used <= next + 1 && (avbl > used ==> dpth >= 1)
            && -1 <= Level(t, dpth + 1)
            && next - (avbl - used) >= Level(t, dpth + 1)
            && (avbl > used ==> AllShare(w, next + 1, dpth))
  {
    hide IsTree, Account, Prefix, SumW, Depth, Keys, Parents, Level, LeavesLeft, AllShare;
    RoomMeansShallow(w, t, dpth, avbl);
    LevelFacts(w, t, dpth);
    if dpth == 0 { LevelZero(t); } else { LevelShares(w, t, dpth, next); }
  }

  lemma LevelSum(w: seq<nat>, t: seq<Merge>, d: nat, root0: int, root: int, next: int)
    requires IsTree(w, t) && |t| == |w| - 1 && forall k :: 0 <= k < |t| ==> t[k].r <= k
    requires root0 == Level(t, d) && root == Level(t, d + 1) && next == 2 * root0 - root
    ensures -1 <= root <= root0 < |t| && (root0 >= 0 ==> root < root0)
    ensures -1 <= next < |w| && LeavesLeft(t, |w|, d + 1) == next + 1
    ensures SumW(t, root0 + 1) == SumW(t, root + 1) + Prefix(w, next + 1)
  {
    hide IsTree, Prefix, SumW, Level, LeavesLeft;
    LevelFacts(w, t, d);
  }

  lemma AccountNext(w: seq<nat>, t: seq<Merge>, l: seq<nat>, d: nat, used: nat, root0: int, root: int, next: int,
          total: nat)
    requires IsTree(w, t) && |t| == |w| - 1 && (forall k :: 0 <= k < |t| ==> t[k].r <= k) && d <= MAX_DEPTH
    requires root0 == Level(t, d) && root == Level(t, d + 1) && next == 2 * root0 - root && -1 <= next < |w|
    requires Account(w, l, next + 1, d, used, SumW(t, root0 + 1), total)
    ensures -1 <= root < |t| && Account(w, l, next + 1, d + 1, 2 * used, SumW(t, root + 1), total)
  {
    hide IsTree, Account, Prefix, SumW, Level, LeavesLeft;
    LevelSum(w, t, d, root0, root, next);
    AccountLevel(w, l, next + 1, d, used, SumW(t, root0 + 1), total, SumW(t, root + 1));
  }

  /** The parts of `AtLevel` that the step to the next level changes. */
  lemma AtLevelParts(a: seq<SymFreq>, n: nat, w: seq<nat>, t: seq<Merge>, par: seq<nat>,
                     avbl: nat, dpth: nat, root: int, next: int)
    requires AtLevel(a, n, w, t, par, avbl, dpth, root, next)
    ensures |w| == n <= |a| && |t| == n - 1 && IsTree(w, t) && Parents(t, par) && |par| == n - 2 && n >= 2
    ensures forall k :: 0 <= k < |t| ==> t[k].r <= k
    ensures root == Level(t, dpth) && next == avbl + root && InnerDepths(a, t, par, root)
  {
    hide IsTree, Account, Prefix, SumW, InnerDepths, Written, Parents, Level, LeavesLeft;
  }

  lemma ReachLevel(a: seq<SymFreq>, n: nat, w: seq<nat>, t: seq<Merge>, par: seq<nat>,
                   avbl: nat, dpth: nat, root: int, next: int)
    requires |w| == n <= |a| && |t| == n - 1 && IsTree(w, t) && Parents(t, par) && |par| == n - 2 && n >= 2
    requires (forall k :: 0 <= k < |t| ==> t[k].r <= k) && root == Level(t, dpth) && LeavesLeft(t, n, dpth) == next + 1
    requires next == avbl + root && -1 <= next < n && dpth <= MAX_DEPTH + 1 && (avbl == 0 ==> root < 0)
    requires InnerDepths(a, t, par, root)
    requires Account(w, Written(a, next, n), next + 1, dpth, avbl, SumW(t, root + 1), SumW(t, n - 1))
    ensures AtLevel(a, n, w, t, par, avbl, dpth, root, next)
  {
    hide IsTree, Account, Prefix, SumW, InnerDepths, Written, Parents, Level, LeavesLeft;
  }

  lemma LeaveLevel(a0: seq<SymFreq>, a: seq<SymFreq>, n: nat, w: seq<nat>, t: seq<Merge>, par: seq<nat>,
                   avbl0: nat, dpth: nat, root0: int, next0: int, used: nat, root: int, next: int)
    requires AtLevel(a0, n, w, t, par, avbl0, dpth, root0, next0) && avbl0 > 0 && dpth <= MAX_DEPTH && |a| == |a0|
    requires root == Level(t, dpth + 1) && used == root0 - root && next == next0 - (avbl0 - used) && -1 <= next < n
    requires forall e :: 0 <= e <= root ==> a[e] == a0[e]
    requires Account(w, Written(a, next, n), next + 1, dpth, used, SumW(t, root0 + 1), SumW(t, n - 1))
    ensures AtLevel(a, n, w, t, par, 2 * used, dpth + 1, root, next)
  {
    hide IsTree, Account, Prefix, SumW, InnerDepths, Written, Parents, Level, LeavesLeft;
    hide AtLevel;
    AtLevelParts(a0, n, w, t, par, avbl0, dpth, root0, next0);
    AccountNext(w, t, Written(a, next, n), dpth, used, root0, root, next, SumW(t, n - 1));
    LevelSum(w, t, dpth, root0, root, next);
    InnerStays(a0, a, t, par, root0, root);
    ReachLevel(a, n, w, t, par, 2 * used, dpth + 1, root, next);
  }

  method OneLevel(a: array<SymFreq>, n: nat, avbl0: nat, dpth: nat, root0: int, next0: int,
                  ghost w: seq<nat>, ghost t: seq<Merge>, ghost par: seq<nat>)
    returns (avbl: nat, root: int, next: int)
    requires n <= a.Length && avbl0 > 0 && Prefix(w, |w|) < 65536
    requires AtLevel(a[..], n, w, t, par, avbl0, dpth, root0, next0)
    modifies a
    ensures dpth <= MAX_DEPTH && AtLevel(a[..], n, w, t, par, avbl, dpth + 1, root, next)
    ensures SameSyms(a[..], old(a[..])) && a[n..] == old(a[n..])
  {
    hide *;
    EnterLevel(a[..], n, w, t, par, avbl0, dpth, root0, next0);
    var used;
    used, root := CountLevel(a, n, root0, dpth, w, t, par);
    next := WriteLevel(a, n, next0, avbl0, used, dpth, w, SumW(t, root0 + 1), SumW(t, n - 1));
    avbl := 2 * used;
    assert forall e :: 0 <= e <= root ==> a[..][e] == old(a[..])[e] by {
      forall e | 0 <= e <= root ensures a[..][e] == old(a[..])[e] {
        assert a[e] == a[..next + 1][e] == old(a[..next + 1])[e];
      }
    }
    assert a[..][next + 1..n] == a[next + 1..n];
    WrittenIs(a[..], next, n);
    LeaveLevel(old(a[..]), a[..], n, w, t, par, avbl0, dpth, root0, next0, used, root, next);
  }

  /** Third loop: depths of internal nodes become lengths of leaves. */
  method LeafLengths(a: array<SymFreq>, n: nat, ghost w: seq<nat>, ghost t: seq<Merge>, ghost par: seq<nat>)
    requires 2 <= n <= a.Length && n < 65536 && |w| == n && |t| == n - 1 && IsTree(w, t)
    requires Prefix(w, n) < 65536 && Parents(t, par) && |par| == n - 2
    requires forall e :: 0 <= e < n - 1 ==> a[e].key == Depth(t, par, e)
    modifies a
    ensures Account(w, Keys(a[..n]), 0, MAX_DEPTH, 0, 0, SumW(t, n - 1))
    ensures SameSyms(a[..], old(a[..])) && a[n..] == old(a[n..])
  {
    hide IsTree, Account, Prefix, SumW, Depth;
    TreeR(w, t);
    var avbl, dpth, root, next := 1, 0, n - 2, n - 1;
    StartAccount(w, SumW(t, n - 1));
    assert a[n..n] == [] && Keys(a[n..n]) == [];
    assert AtLevel(a[..], n, w, t, par, avbl, dpth, root, next);
    while avbl > 0
      invariant 0 <= avbl && AtLevel(a[..], n, w, t, par, avbl, dpth, root, next)
      invariant SameSyms(a[..], old(a[..])) && a[n..] == old(a[n..])
      decreases MAX_DEPTH + 1 - dpth
    {
      avbl, root, next := OneLevel(a, n, avbl, dpth, root, next, w, t, par);
      dpth := dpth + 1;
    }
    assert a[..][0..n] == a[..n];
    EmptySum(t);
    EndAccount(w, Keys(a[..n]), dpth, 0, SumW(t, n - 1));
  }

  /** The lengths calculated from sorted weights `w` with merge record `t`. */
  ghost predicate MinimalLengths(w: seq<nat>, t: seq<Merge>, l: seq<nat>)
  {
    && |l| == |w| >= 2 && |t| == |w| - 1 && IsTree(w, t)
    && (forall i :: 0 <= i < |l| ==> 1 <= l[i] <= MAX_DEPTH)
    && (forall i, j :: 0 <= i <= j < |l| ==> l[i] >= l[j])
    && (forall i :: 0 <= i < |l| ==> Share(w[i], l[i], Prefix(w, |w|)))
    && KraftSum(l, 32) == Pow2(32)
    && Cost(w, l) == SumW(t, |t|)
  }

  lemma FinishedAccount(w: seq<nat>, t: seq<Merge>, l: seq<nat>)
    requires |w| >= 2 && |t| == |w| - 1 && IsTree(w, t)
    requires Account(w, l, 0, MAX_DEPTH, 0, 0, SumW(t, |t|))
    ensures MinimalLengths(w, t, l)
  {
    hide KraftSum, Cost, Pow2, Share, IsTree, SumW;
    assert w[0..] == w;
    assert Prefix(w, 0) == 0 && MAX_DEPTH * 0 == 0;
    assert 0 * Pow2(32 - MAX_DEPTH) == 0;
    forall i | 0 <= i < |l| ensures Share(w[i], l[i], Prefix(w, |w|)) {
      assert Share(w[0 + i], l[i], Prefix(w, |w|));
    }
  }

  /** Sorted weights in, code lengths out, in place. */
  method MinimumRedundancy(a: array<SymFreq>, n: nat) returns (ghost t: seq<Merge>)
    requires n <= a.Length && n < 65536 && SortedByKey(a[..n])
    requires forall i :: 0 <= i < n ==> a[i].key >= 1
    requires Prefix(Keys(a[..n]), n) < 65536
    modifies a
    ensures n == 1 ==> a[0].key == 1
    ensures n >= 2 ==> MinimalLengths(old(Keys(a[..n])), t, Keys(a[..n]))
    ensures SameSyms(a[..], old(a[..])) && a[n..] == old(a[n..])
  {
    t := [];
    if n == 0 { return; }
    if n == 1 {
      a[0] := a[0].(key := 1);
      return;
    }
    hide IsTree, Account, Prefix, SumW, MinimalLengths, Parents, Depth;
    ghost var w, par := Keys(a[..n]), [];
    assert Sorted(w);
    t, par := BuildTree(a, n, w);
    Depths(a, n, t, par);
    LeafLengths(a, n, w, t, par);
    FinishedAccount(w, t, Keys(a[..n]));
  }

  /** The calculated lengths have the least total cost of all prefix codes for
      the weights: any list of lengths whose Kraft sum is at most one costs at
      least as much. */
  lemma CalculatedLengthsAreOptimal(w: seq<nat>, t: seq<Merge>, l: seq<nat>, other: seq<nat>, d: nat)
    requires MinimalLengths(w, t, l)
    requires |other| == |w| && Fits(other, d)
    ensures Cost(w, l) <= Cost(w, other)
  {
    hide Cost, KraftSum, IsTree;
    EmptySum(t);
    Optimal(w, t, 0, other, d);
    assert Queue(w, t, 0) == w;
  }
}
