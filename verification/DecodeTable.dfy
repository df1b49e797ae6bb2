/**
  The inflater's decoding tables: 1024 entries for the first ten bits of a code
  word, and a tree for what is longer. Entry 0 means "nothing here yet"; since no
  code word continues another one, that never hides a symbol.
 */
module DecodeTable {
  import opened Bits
  import opened Canonical
  import opened Blocks
  import opened HuffmanTable

  const FAST_BITS: nat := 10
  const FAST_SIZE: nat := 1024
  const TREE_SIZE: nat := 576
  const MAX_SYMS: nat := 288

  /** A node of the tree: a prefix, ten bits or longer, of a longer code word. */
  ghost predicate IsNode(lens: seq<nat>, n: nat, p: seq<bool>)
  {
    |p| >= FAST_BITS && exists s :: 0 <= s < n && s < |lens| && lens[s] > |p| && p <= CodeBits(lens, s)
  }

  // ------------------------------------------------------ how many nodes fit

  /** The code word that continues node `p` by a zero and then only ones. */
  ghost function Beyond(p: seq<bool>): seq<bool>
  {
    p + ([false] + seq(MAX_LEN, i => true))
  }

  ghost predicate EndsLike(c: seq<bool>, p: seq<bool>)
  {
    |p| < |c| && c <= Beyond(p)
  }

  lemma EndsZero(c: seq<bool>, p: seq<bool>)
    requires EndsLike(c, p)
    ensures c[..|p|] == p && !c[|p|]
  {
    assert Beyond(p)[|p|] == false;
  }

  lemma EndsOnes(c: seq<bool>, p: seq<bool>, m: nat)
    requires EndsLike(c, p) && |p| < m < |c|
    ensures c[m]
  {
    assert Beyond(p)[m] == true;
  }

  /** A code word ends like this for one node only. */
  lemma EndsOnce(c: seq<bool>, p: seq<bool>, q: seq<bool>)
    requires EndsLike(c, p) && EndsLike(c, q)
    ensures p == q
  {
    EndsZero(c, p);
    EndsZero(c, q);
    if |p| < |q| { EndsOnes(c, p, |q|); } else if |q| < |p| { EndsOnes(c, q, |p|); }
  }

  /** Every node has such a code word. */
  lemma NodeSymbol(lens: seq<nat>, p: seq<bool>) returns (s: nat)
    requires Complete(lens) && IsNode(lens, |lens|, p)
    ensures s < |lens| && EndsLike(CodeBits(lens, s), p)
  {
    hide Complete;
    var t :| 0 <= t < |lens| && lens[t] > |p| && p <= CodeBits(lens, t);
    s := CompleteDecodes(lens, Beyond(p));
    if lens[s] <= |p| {
      var c := CodeBits(lens, s);
      assert c == Beyond(p)[..|c|] == p[..|c|];
      assert c <= CodeBits(lens, t);
      NotPrefix(lens, s, t);
    }
  }

  ghost predicate Marks(lens: seq<nat>, n: nat, p: seq<bool>)
  {
    exists s :: 0 <= s < n && s < |lens| && EndsLike(CodeBits(lens, s), p)
  }

  lemma NoMarks(lens: seq<nat>, p: seq<bool>)
    ensures !Marks(lens, 0, p)
  {
  }

  lemma {:induction false} FewMarks(lens: seq<nat>, n: nat, ps: set<seq<bool>>)
    requires forall p :: p in ps ==> Marks(lens, n, p)
    ensures |ps| <= n
  {
    hide EndsLike;
    if n == 0 {
      forall p ensures p !in ps { NoMarks(lens, p); }
      assert ps == {};
    } else if exists p :: p in ps && n - 1 < |lens| && EndsLike(CodeBits(lens, n - 1), p) {
      var p :| p in ps && n - 1 < |lens| && EndsLike(CodeBits(lens, n - 1), p);
      var rest := ps - {p};
      forall q | q in rest ensures Marks(lens, n - 1, q) {
        assert Marks(lens, n, q);
        if EndsLike(CodeBits(lens, n - 1), q) { EndsOnce(CodeBits(lens, n - 1), p, q); }
      }
      FewMarks(lens, n - 1, rest);
    } else {
      forall q | q in ps ensures Marks(lens, n - 1, q) { assert Marks(lens, n, q); }
      FewMarks(lens, n - 1, ps);
    }
  }

  /** The tree never has more nodes than there are symbols. */
  lemma NodeBound(lens: seq<nat>, ps: set<seq<bool>>)
    requires Complete(lens) && forall p :: p in ps ==> IsNode(lens, |lens|, p)
    ensures |ps| <= |lens|
  {
    hide Complete, EndsLike;
    forall p | p in ps ensures Marks(lens, |lens|, p) {
      var s := NodeSymbol(lens, p);
    }
    FewMarks(lens, |lens|, ps);
  }

  // ------------------------------------------------------- what a table holds

  ghost predicate IsLeaf(lens: seq<nat>, s: nat, q: seq<bool>)
  {
    s < |lens| && lens[s] > 0 && CodeBits(lens, s) == q
  }

  ghost predicate NoLeaf(lens: seq<nat>, n: nat, q: seq<bool>)
  {
    forall s :: 0 <= s < n ==> !IsLeaf(lens, s, q)
  }

  /** Symbol `s` has a code word of at most ten bits that starts `x`. */
  ghost predicate Short(lens: seq<nat>, s: nat, x: seq<bool>)
  {
    s < |lens| && 0 < lens[s] <= FAST_BITS && CodeBits(lens, s) <= x
  }

  ghost predicate NoShort(lens: seq<nat>, n: nat, x: seq<bool>)
  {
    forall s :: 0 <= s < n ==> !Short(lens, s, x)
  }

  /** The table's number for tree node `j`. */
  function NodeId(j: nat): int
  {
    -1 - 2 * j
  }

  /** A slot of the tree, for bit string `q`: a node, a symbol, or nothing. */
  ghost predicate SlotOk(lens: seq<nat>, n: nat, nodes: map<seq<bool>, nat>, q: seq<bool>, v: int)
  {
    && (q in nodes ==> v == NodeId(nodes[q]))
    && (forall s :: 0 <= s < n && IsLeaf(lens, s, q) ==> v == s)
    && (q !in nodes && NoLeaf(lens, n, q) ==> v == 0)
  }

  /** An entry of the lookup table, for ten bits `x`. */
  ghost predicate EntryOk(lens: seq<nat>, n: nat, nodes: map<seq<bool>, nat>, x: seq<bool>, v: int)
  {
    && (x in nodes ==> v == NodeId(nodes[x]))
    && (forall s :: 0 <= s < n && Short(lens, s, x) ==> v == 512 * lens[s] + s)
    && (x !in nodes && NoShort(lens, n, x) ==> v == 0)
  }

  ghost predicate LookOk(lens: seq<nat>, n: nat, nodes: map<seq<bool>, nat>, look: seq<int>)
  {
    |look| == FAST_SIZE &&
    forall x: seq<bool> :: |x| == FAST_BITS && Nat(x) < FAST_SIZE ==> EntryOk(lens, n, nodes, x, look[Nat(x)])
  }

  ghost predicate ChildrenOk(lens: seq<nat>, n: nat, nodes: map<seq<bool>, nat>, tree: seq<int>, p: seq<bool>)
    requires p in nodes && |tree| == TREE_SIZE && nodes[p] < MAX_SYMS
  {
    SlotOk(lens, n, nodes, p + [false], tree[2 * nodes[p]])
      && SlotOk(lens, n, nodes, p + [true], tree[2 * nodes[p] + 1])
  }

  ghost predicate IdsOk(nodes: map<seq<bool>, nat>)
  {
    && |nodes| <= MAX_SYMS
    && (forall p :: p in nodes ==> nodes[p] < |nodes|)
    && (forall p, q :: p in nodes && q in nodes && nodes[p] == nodes[q] ==> p == q)
  }

  ghost predicate TreeOk(lens: seq<nat>, n: nat, nodes: map<seq<bool>, nat>, tree: seq<int>)
    requires IdsOk(nodes)
  {
    && |tree| == TREE_SIZE
    && (forall p :: p in nodes ==> ChildrenOk(lens, n, nodes, tree, p))
    && (forall i :: 2 * |nodes| <= i < TREE_SIZE ==> tree[i] == 0)
  }

  /** The nodes are those of the first `n` symbols, and the prefixes of `w` up to
      `m` bits. */
  ghost predicate NodesAre(lens: seq<nat>, n: nat, w: seq<bool>, m: nat, nodes: map<seq<bool>, nat>)
  {
    forall p :: p in nodes <==> (IsNode(lens, n, p) || (FAST_BITS <= |p| <= m && p <= w))
  }

  ghost predicate Holding(lens: seq<nat>, n: nat, w: seq<bool>, m: nat, nodes: map<seq<bool>, nat>, look: seq<int>,
          tree: seq<int>)
  {
    IdsOk(nodes) && LookOk(lens, n, nodes, look) && TreeOk(lens, n, nodes, tree) && NodesAre(lens, n, w, m, nodes)
  }

  // ---------------------------------------------------------- adding to it

  /** No code word begins at a node's own prefix of another one. */
  lemma NotCode(lens: seq<nat>, n: nat, k: nat, q: seq<bool>)
    requires ValidCode(lens) && n < |lens| && k < |lens| && 0 < lens[k] && |q| < lens[n]
    requires q <= CodeBits(lens, n)
    ensures !(CodeBits(lens, k) <= q)
  {
    hide CodeBits, ValidCode;
    if CodeBits(lens, k) <= q {
      assert CodeBits(lens, k) <= CodeBits(lens, n);
      NotPrefix(lens, k, n);
    }
  }

  lemma NodeShrinks(lens: seq<nat>, n: nat, p: seq<bool>, q: seq<bool>)
    requires IsNode(lens, n, q) && FAST_BITS <= |p| && p <= q
    ensures IsNode(lens, n, p)
  {
    hide CodeBits;
  }

  lemma LeafMakesNode(lens: seq<nat>, n: nat, s: nat, p: seq<bool>, q: seq<bool>)
    requires 0 <= s < n && IsLeaf(lens, s, q) && FAST_BITS <= |p| < |q| && p <= q
    ensures IsNode(lens, n, p)
  {
    hide CodeBits;
  }

  lemma LeafLen(lens: seq<nat>, s: nat, q: seq<bool>)
    requires IsLeaf(lens, s, q)
    ensures |q| == lens[s]
  {
  }

  /** A fresh node has no children yet. */
  lemma FreshChildren(lens: seq<nat>, n: nat, w: seq<bool>, m: nat, nodes: map<seq<bool>, nat>, q: seq<bool>,
          c: seq<bool>)
    requires NodesAre(lens, n, w, m, nodes) && q !in nodes && FAST_BITS <= |q| == m + 1 && q <= w && |c| == |q| + 1
      && q <= c
    ensures c !in nodes && NoLeaf(lens, n, c)
  {
    hide IsLeaf, IsNode;
    if c in nodes { NodeShrinks(lens, n, q, c); }
    forall s | 0 <= s < n ensures !IsLeaf(lens, s, c) {
      if IsLeaf(lens, s, c) {
        LeafLen(lens, s, c);
        LeafMakesNode(lens, n, s, q, c);
      }
    }
  }

  lemma NodesMore(lens: seq<nat>, n: nat, w: seq<bool>, m: nat, nodes: map<seq<bool>, nat>, q: seq<bool>, j: nat)
    requires NodesAre(lens, n, w, m, nodes) && FAST_BITS <= |q| == m + 1 && q <= w
    ensures NodesAre(lens, n, w, m + 1, nodes[q := j])
  {
    hide IsNode;
    forall p | |p| == m + 1 && p <= w ensures p == q {
      assert p == w[..m + 1] && q == w[..m + 1];
    }
  }

  lemma IdsMore(nodes: map<seq<bool>, nat>, q: seq<bool>)
    requires IdsOk(nodes) && q !in nodes && |nodes| < MAX_SYMS
    ensures IdsOk(nodes[q := |nodes|]) && |nodes[q := |nodes|]| == |nodes| + 1
  {
    assert nodes[q := |nodes|].Keys == nodes.Keys + {q};
  }

  lemma SamePrefix(w: seq<bool>, p: seq<bool>)
    requires p <= w
    ensures p == w[..|p|]
  {
  }

  lemma {:induction false} FewPrefixes(w: seq<bool>, n: nat, ps: set<seq<bool>>)
    requires forall p :: p in ps ==> p <= w && |p| < n
    ensures |ps| <= n
  {
    if n == 0 {
      assert ps == {};
    } else if p :| p in ps && |p| == n - 1 {
      var rest := ps - {p};
      SamePrefix(w, p);
      forall q | q in rest ensures |q| < n - 1 { SamePrefix(w, q); }
      FewPrefixes(w, n - 1, rest);
    } else {
      FewPrefixes(w, n - 1, ps);
    }
  }

  /** A single code word has fewer nodes than bits. */
  lemma LoneNodes(lens: seq<nat>, n: nat, ps: set<seq<bool>>)
    requires Lone(lens) && n < |lens| && lens[n] > 0 && forall p :: p in ps ==> IsNode(lens, |lens|, p)
    ensures |ps| <= MAX_LEN
  {
    hide CodeBits;
    forall p | p in ps ensures p <= CodeBits(lens, n) && |p| < MAX_LEN {
      var s :| 0 <= s < |lens| && lens[s] > |p| && p <= CodeBits(lens, s);
      assert s == n;
    }
    FewPrefixes(CodeBits(lens, n), MAX_LEN, ps);
  }

  lemma NodeLater(lens: seq<nat>, n: nat, p: seq<bool>)
    requires IsNode(lens, n, p) && n <= |lens|
    ensures IsNode(lens, |lens|, p)
  {
    hide CodeBits;
  }

  lemma NodeOf(lens: seq<nat>, n: nat, p: seq<bool>)
    requires n < |lens| && FAST_BITS <= |p| < lens[n] && p <= CodeBits(lens, n)
    ensures IsNode(lens, |lens|, p) && IsNode(lens, n + 1, p)
  {
    hide CodeBits;
  }

  /** There is room for another node. */
  lemma RoomForNode(lens: seq<nat>, n: nat, w: seq<bool>, m: nat, nodes: map<seq<bool>, nat>, q: seq<bool>)
    requires ValidCode(lens) && n < |lens| <= MAX_SYMS && w == CodeBits(lens, n) && lens[n] > FAST_BITS
    requires NodesAre(lens, n, w, m, nodes) && q !in nodes && FAST_BITS <= |q| == m + 1 < |w| && q <= w
    ensures |nodes| < MAX_SYMS
  {
    hide CodeBits, Complete;
    var ps := nodes.Keys + {q};
    forall p | p in ps ensures IsNode(lens, |lens|, p) {
      if p in nodes && IsNode(lens, n, p) { NodeLater(lens, n, p); } else { NodeOf(lens, n, p); }
    }
    if Complete(lens) { NodeBound(lens, ps); } else { LoneNodes(lens, n, ps); }
    assert |ps| == |nodes.Keys| + 1;
  }

  lemma NodeLens(lens: seq<nat>, n: nat, w: seq<bool>, m: nat, nodes: map<seq<bool>, nat>)
    requires NodesAre(lens, n, w, m, nodes)
    ensures forall p :: p in nodes ==> |p| >= FAST_BITS
  {
  }

  lemma NatInjective(x: seq<bool>, y: seq<bool>)
    requires |x| == |y| && x != y
    ensures Nat(x) != Nat(y)
  {
    ToBitsNat(x);
    ToBitsNat(y);
  }

  lemma LookMore(lens: seq<nat>, n: nat, w: seq<bool>, nodes: map<seq<bool>, nat>, look: seq<int>, x: seq<bool>)
    requires ValidCode(lens) && n < |lens| && w == CodeBits(lens, n) && lens[n] > FAST_BITS && x == w[..FAST_BITS]
    requires LookOk(lens, n, nodes, look) && x !in nodes && Nat(x) < FAST_SIZE
    ensures LookOk(lens, n, nodes[x := |nodes|], look[Nat(x) := NodeId(|nodes|)])
  {
    hide CodeBits, ValidCode, Nat;
    var nodes', look' := nodes[x := |nodes|], look[Nat(x) := NodeId(|nodes|)];
    forall y: seq<bool> | |y| == FAST_BITS && Nat(y) < FAST_SIZE ensures EntryOk(lens, n, nodes', y, look'[Nat(y)]) {
      if y == x {
        forall s | 0 <= s < n ensures !Short(lens, s, x) {
          if s < |lens| && lens[s] > 0 { NotCode(lens, n, s, x); }
        }
      } else {
        NatInjective(x, y);
        assert EntryOk(lens, n, nodes, y, look[Nat(y)]);
      }
    }
  }

  lemma SlotKept(lens: seq<nat>, n: nat, nodes: map<seq<bool>, nat>, q: seq<bool>, c: seq<bool>, v: int)
    requires SlotOk(lens, n, nodes, c, v) && c != q
    ensures SlotOk(lens, n, nodes[q := |nodes|], c, v)
  {
    hide IsLeaf;
  }

  lemma NewSlots(lens: seq<nat>, n: nat, w: seq<bool>, m: nat, nodes: map<seq<bool>, nat>, q: seq<bool>)
    requires NodesAre(lens, n, w, m, nodes) && q !in nodes && FAST_BITS <= |q| == m + 1 && q <= w
    ensures SlotOk(lens, n, nodes[q := |nodes|], q + [false], 0) && SlotOk(lens, n, nodes[q := |nodes|], q + [true], 0)
  {
    hide IsLeaf, IsNode;
    FreshChildren(lens, n, w, m, nodes, q, q + [false]);
    FreshChildren(lens, n, w, m, nodes, q, q + [true]);
  }

  /** A new node leaves the others as they are, and has empty slots. */
  lemma TreeMore(lens: seq<nat>, n: nat, w: seq<bool>, m: nat, nodes: map<seq<bool>, nat>, tree: seq<int>, q: seq<bool>)
    requires IdsOk(nodes) && IdsOk(nodes[q := |nodes|]) && |nodes[q := |nodes|]| == |nodes| + 1
    requires TreeOk(lens, n, nodes, tree) && NodesAre(lens, n, w, m, nodes)
    requires q !in nodes && FAST_BITS <= |q| == m + 1 && q <= w
    requires forall p :: p in nodes ==> |q| != |p| + 1 || !(p <= q)
    ensures TreeOk(lens, n, nodes[q := |nodes|], tree)
  {
    hide CodeBits, IsNode, SlotOk, NodesAre;
    var nodes' := nodes[q := |nodes|];
    forall p | p in nodes' ensures ChildrenOk(lens, n, nodes', tree, p) {
      if p == q {
        NewSlots(lens, n, w, m, nodes, q);
      } else {
        assert ChildrenOk(lens, n, nodes, tree, p);
        SlotKept(lens, n, nodes, q, p + [false], tree[2 * nodes[p]]);
        SlotKept(lens, n, nodes, q, p + [true], tree[2 * nodes[p] + 1]);
      }
    }
  }

  /** A new node that hangs at the lookup table. */
  lemma AddAtLook(lens: seq<nat>, n: nat, w: seq<bool>, nodes: map<seq<bool>, nat>, look: seq<int>, tree: seq<int>,
          x: seq<bool>)
    requires ValidCode(lens) && n < |lens| <= MAX_SYMS && w == CodeBits(lens, n) && lens[n] > FAST_BITS
    requires Holding(lens, n, w, FAST_BITS - 1, nodes, look, tree) && x == w[..FAST_BITS] && x !in nodes
      && Nat(x) < FAST_SIZE
    ensures |nodes| < MAX_SYMS
    ensures Holding(lens, n, w, FAST_BITS, nodes[x := |nodes|], look[Nat(x) := NodeId(|nodes|)], tree)
  {
    hide CodeBits, ValidCode, EntryOk, ChildrenOk, IsNode, Nat, SlotOk, IdsOk;
    RoomForNode(lens, n, w, FAST_BITS - 1, nodes, x);
    IdsMore(nodes, x);
    NodesMore(lens, n, w, FAST_BITS - 1, nodes, x, |nodes|);
    var nodes' := nodes[x := |nodes|];
    LookMore(lens, n, w, nodes, look, x);
    NodeLens(lens, n, w, FAST_BITS - 1, nodes);
    TreeMore(lens, n, w, FAST_BITS - 1, nodes, tree, x);
  }

  function Bit(b: bool): nat
  {
    if b then 1 else 0
  }

  lemma LookSame(lens: seq<nat>, n: nat, nodes: map<seq<bool>, nat>, look: seq<int>, q: seq<bool>)
    requires LookOk(lens, n, nodes, look) && |q| > FAST_BITS
    ensures LookOk(lens, n, nodes[q := |nodes|], look)
  {
    hide CodeBits, Nat, Short;
    forall y: seq<bool> | |y| == FAST_BITS && Nat(y) < FAST_SIZE ensures EntryOk(lens, n, nodes[q := |nodes|], y,
      look[Nat(y)]) {
      assert EntryOk(lens, n, nodes, y, look[Nat(y)]);
    }
  }

  lemma LeafNotPrefix(lens: seq<nat>, n: nat, s: nat, q: seq<bool>)
    requires ValidCode(lens) && n < |lens| && q <= CodeBits(lens, n) && |q| < lens[n]
    ensures !IsLeaf(lens, s, q)
  {
    hide CodeBits, ValidCode;
    if s < |lens| && lens[s] > 0 { NotCode(lens, n, s, q); }
  }

  lemma ChildLinked(lens: seq<nat>, n: nat, w: seq<bool>, m: nat, nodes: map<seq<bool>, nat>, tree: seq<int>,
          p: seq<bool>, b: bool)
    requires ValidCode(lens) && n < |lens| && w == CodeBits(lens, n) && FAST_BITS <= m && m + 1 < |w|
    requires IdsOk(nodes) && |tree| == TREE_SIZE && p in nodes && w[..m] in nodes && w[..m + 1] !in nodes
    requires SlotOk(lens, n, nodes, p + [b], tree[2 * nodes[p] + Bit(b)])
    ensures SlotOk(lens, n, nodes[w[..m + 1] := |nodes|], p + [b],
                   tree[2 * nodes[w[..m]] + Bit(w[m]) := NodeId(|nodes|)][2 * nodes[p] + Bit(b)])
  {
    hide CodeBits, ValidCode, IsLeaf;
    var p0, q := w[..m], w[..m + 1];
    assert p0 + [w[m]] == q;
    if p == p0 && b == w[m] {
      forall s | 0 <= s < n ensures !IsLeaf(lens, s, q) { LeafNotPrefix(lens, n, s, q); }
    } else {
      assert (p + [b])[..|p|] == p && (p + [b])[|p|] == b;
      assert p + [b] != q;
      SlotKept(lens, n, nodes, q, p + [b], tree[2 * nodes[p] + Bit(b)]);
    }
  }

  lemma TreeLinked(lens: seq<nat>, n: nat, w: seq<bool>, m: nat, nodes: map<seq<bool>, nat>, tree: seq<int>)
    requires ValidCode(lens) && n < |lens| && w == CodeBits(lens, n) && FAST_BITS <= m && m + 1 < |w|
    requires IdsOk(nodes) && IdsOk(nodes[w[..m + 1] := |nodes|]) && |nodes[w[..m + 1] := |nodes|]| == |nodes| + 1
    requires TreeOk(lens, n, nodes, tree) && NodesAre(lens, n, w, m, nodes) && w[..m] in nodes && w[..m + 1] !in nodes
    ensures nodes[w[..m]] < MAX_SYMS
    ensures TreeOk(lens, n, nodes[w[..m + 1] := |nodes|], tree[2 * nodes[w[..m]] + Bit(w[m]) := NodeId(|nodes|)])
  {
    hide CodeBits, ValidCode, IsNode, SlotOk, NodesAre;
    var p0, q := w[..m], w[..m + 1];
    var nodes' := nodes[q := |nodes|];
    var tree' := tree[2 * nodes[p0] + Bit(w[m]) := NodeId(|nodes|)];
    assert p0 + [w[m]] == q;
    forall p | p in nodes' ensures ChildrenOk(lens, n, nodes', tree', p) {
      if p == q {
        NewSlots(lens, n, w, m, nodes, q);
        assert tree[2 * |nodes|] == 0 && tree[2 * |nodes| + 1] == 0;
      } else {
        assert ChildrenOk(lens, n, nodes, tree, p);
        ChildLinked(lens, n, w, m, nodes, tree, p, false);
        ChildLinked(lens, n, w, m, nodes, tree, p, true);
      }
    }
  }

  /** A new node below another one. */
  lemma AddAtTree(lens: seq<nat>, n: nat, w: seq<bool>, m: nat, nodes: map<seq<bool>, nat>, look: seq<int>,
          tree: seq<int>)
    requires ValidCode(lens) && n < |lens| <= MAX_SYMS && w == CodeBits(lens, n) && FAST_BITS <= m && m + 1 < |w|
    requires Holding(lens, n, w, m, nodes, look, tree) && w[..m] in nodes && w[..m + 1] !in nodes
    ensures |nodes| < MAX_SYMS && nodes[w[..m]] < MAX_SYMS
    ensures Holding(lens, n, w, m + 1, nodes[w[..m + 1] := |nodes|], look,
                    tree[2 * nodes[w[..m]] + Bit(w[m]) := NodeId(|nodes|)])
  {
    hide CodeBits, ValidCode, EntryOk, ChildrenOk, IsNode, SlotOk, IdsOk, Nat;
    var p, q := w[..m], w[..m + 1];
    RoomForNode(lens, n, w, m, nodes, q);
    IdsMore(nodes, q);
    NodesMore(lens, n, w, m, nodes, q, |nodes|);
    LookSame(lens, n, nodes, look, q);
    TreeLinked(lens, n, w, m, nodes, tree);
  }

  lemma IdBound(nodes: map<seq<bool>, nat>, p: seq<bool>)
    requires IdsOk(nodes) && p in nodes
    ensures nodes[p] < |nodes| <= MAX_SYMS
  {
  }

  lemma LookLong(lens: seq<nat>, n: nat, nodes: map<seq<bool>, nat>, look: seq<int>)
    requires LookOk(lens, n, nodes, look) && n < |lens| && (lens[n] > FAST_BITS || lens[n] == 0)
    ensures LookOk(lens, n + 1, nodes, look)
  {
    hide CodeBits, Nat;
    forall y: seq<bool> | |y| == FAST_BITS && Nat(y) < FAST_SIZE ensures EntryOk(lens, n + 1, nodes, y, look[Nat(y)]) {
      assert EntryOk(lens, n, nodes, y, look[Nat(y)]);
    }
  }

  lemma NodesNext(lens: seq<nat>, n: nat, w: seq<bool>, nodes: map<seq<bool>, nat>)
    requires n < |lens| && w == CodeBits(lens, n) && |w| > FAST_BITS && NodesAre(lens, n, w, |w| - 1, nodes)
    ensures NodesAre(lens, n + 1, [], 0, nodes)
  {
    hide CodeBits;
    forall p ensures IsNode(lens, n + 1, p) <==> (IsNode(lens, n, p) || (FAST_BITS <= |p| <= |w| - 1 && p <= w)) {
      if FAST_BITS <= |p| <= |w| - 1 && p <= w { NodeOf(lens, n, p); }
    }
  }

  lemma NotANode(lens: seq<nat>, n: nat, w: seq<bool>, nodes: map<seq<bool>, nat>)
    requires ValidCode(lens) && n < |lens| && w == CodeBits(lens, n) && |w| > FAST_BITS
    requires NodesAre(lens, n, w, |w| - 1, nodes)
    ensures w !in nodes
  {
    hide CodeBits, ValidCode;
    if w in nodes {
      var s :| 0 <= s < n && s < |lens| && lens[s] > |w| && w <= CodeBits(lens, s);
      NotCode(lens, s, n, w);
    }
  }

  lemma LeafOnce(lens: seq<nat>, s: nat, n: nat, w: seq<bool>)
    requires ValidCode(lens) && IsLeaf(lens, s, w) && IsLeaf(lens, n, w)
    ensures s == n
  {
    hide CodeBits, ValidCode;
    PrefixFree(lens, s, n, w);
  }

  lemma SlotLeaf(lens: seq<nat>, n: nat, w: seq<bool>, nodes: map<seq<bool>, nat>, tree: seq<int>, p: seq<bool>,
          b: bool)
    requires ValidCode(lens) && n < |lens| && w == CodeBits(lens, n) && |w| > FAST_BITS && w !in nodes
    requires IdsOk(nodes) && |tree| == TREE_SIZE && p in nodes && w[..|w| - 1] in nodes
    requires SlotOk(lens, n, nodes, p + [b], tree[2 * nodes[p] + Bit(b)])
    ensures var tree' := tree[2 * nodes[w[..|w| - 1]] + Bit(w[|w| - 1]) := n];
            SlotOk(lens, n + 1, nodes, p + [b], tree'[2 * nodes[p] + Bit(b)])
  {
    hide CodeBits, ValidCode;
    var p0, l := w[..|w| - 1], w[|w| - 1];
    assert p0 + [l] == w;
    if p == p0 && b == l {
      forall s | 0 <= s < n + 1 && IsLeaf(lens, s, w) ensures s == n { LeafOnce(lens, s, n, w); }
      assert IsLeaf(lens, n, w);
    } else {
      assert (p + [b])[..|p|] == p && (p + [b])[|p|] == b;
      assert p + [b] != w;
    }
  }

  lemma TreeLeaf(lens: seq<nat>, n: nat, w: seq<bool>, nodes: map<seq<bool>, nat>, tree: seq<int>)
    requires ValidCode(lens) && n < |lens| && w == CodeBits(lens, n) && |w| > FAST_BITS
    requires IdsOk(nodes) && TreeOk(lens, n, nodes, tree) && NodesAre(lens, n, w, |w| - 1, nodes)
    requires w[..|w| - 1] in nodes && nodes[w[..|w| - 1]] < MAX_SYMS
    ensures TreeOk(lens, n + 1, nodes, tree[2 * nodes[w[..|w| - 1]] + Bit(w[|w| - 1]) := n])
  {
    hide CodeBits, ValidCode, IsNode, SlotOk, NodesAre, IsLeaf;
    NotANode(lens, n, w, nodes);
    var tree' := tree[2 * nodes[w[..|w| - 1]] + Bit(w[|w| - 1]) := n];
    forall p | p in nodes ensures ChildrenOk(lens, n + 1, nodes, tree', p) {
      assert ChildrenOk(lens, n, nodes, tree, p);
      SlotLeaf(lens, n, w, nodes, tree, p, false);
      SlotLeaf(lens, n, w, nodes, tree, p, true);
    }
  }

  /** The symbol at the end of its code word: the table now holds it. */
  lemma AddLeaf(lens: seq<nat>, n: nat, w: seq<bool>, nodes: map<seq<bool>, nat>, look: seq<int>, tree: seq<int>)
    requires ValidCode(lens) && n < |lens| <= MAX_SYMS && w == CodeBits(lens, n) && lens[n] > FAST_BITS
    requires Holding(lens, n, w, |w| - 1, nodes, look, tree) && w[..|w| - 1] in nodes
    ensures nodes[w[..|w| - 1]] < MAX_SYMS
    ensures Holding(lens, n + 1, [], 0, nodes, look, tree[2 * nodes[w[..|w| - 1]] + Bit(w[|w| - 1]) := n])
  {
    hide CodeBits, ValidCode, EntryOk, ChildrenOk, IsNode, SlotOk, IdsOk, Nat, IsLeaf, Short;
    assert IdsOk(nodes) && nodes[w[..|w| - 1]] < MAX_SYMS by { IdBound(nodes, w[..|w| - 1]); }
    LookLong(lens, n, nodes, look);
    NodesNext(lens, n, w, nodes);
    TreeLeaf(lens, n, w, nodes, tree);
  }

  lemma ShortNodes(lens: seq<nat>, n: nat, nodes: map<seq<bool>, nat>)
    requires n < |lens| && lens[n] <= FAST_BITS && NodesAre(lens, n, [], 0, nodes)
    ensures NodesAre(lens, n + 1, [], 0, nodes)
  {
    hide CodeBits;
    forall p ensures IsNode(lens, n + 1, p) <==> IsNode(lens, n, p) {}
  }

  lemma SlotShort(lens: seq<nat>, n: nat, nodes: map<seq<bool>, nat>, q: seq<bool>, v: int)
    requires n < |lens| && lens[n] <= FAST_BITS < |q| && SlotOk(lens, n, nodes, q, v)
    ensures SlotOk(lens, n + 1, nodes, q, v)
  {
    hide CodeBits;
    assert !IsLeaf(lens, n, q);
  }

  lemma ShortTree(lens: seq<nat>, n: nat, nodes: map<seq<bool>, nat>, tree: seq<int>)
    requires n < |lens| && lens[n] <= FAST_BITS && IdsOk(nodes) && TreeOk(lens, n, nodes, tree)
      && NodesAre(lens, n, [], 0, nodes)
    ensures TreeOk(lens, n + 1, nodes, tree)
  {
    hide CodeBits, IsNode;
    NodeLens(lens, n, [], 0, nodes);
    forall p | p in nodes ensures ChildrenOk(lens, n + 1, nodes, tree, p) {
      assert ChildrenOk(lens, n, nodes, tree, p);
      SlotShort(lens, n, nodes, p + [false], tree[2 * nodes[p]]);
      SlotShort(lens, n, nodes, p + [true], tree[2 * nodes[p] + 1]);
    }
  }

  /** A symbol without a code changes nothing. */
  lemma AddNothing(lens: seq<nat>, n: nat, nodes: map<seq<bool>, nat>, look: seq<int>, tree: seq<int>)
    requires n < |lens| && lens[n] == 0 && Holding(lens, n, [], 0, nodes, look, tree)
    ensures Holding(lens, n + 1, [], 0, nodes, look, tree)
  {
    hide CodeBits, IdsOk;
    LookLong(lens, n, nodes, look);
    ShortNodes(lens, n, nodes);
    ShortTree(lens, n, nodes, tree);
  }

  /** A code word begins `y` exactly when it agrees with the low bits of its number. */
  lemma LowOfNat(y: seq<bool>, l: nat, c: seq<bool>)
    requires l <= |y| && |c| == l
    ensures Low(Nat(y), l) == Nat(c) <==> c <= y
  {
    hide Nat, Low, ToBits;
    var v := Nat(y);
    ToBitsNat(y);
    ToBitsSplit(v, l, |y| - l);
    assert l + (|y| - l) == |y|;
    assert ToBits(v, l) == y[..l];
    NatToBits(v, l);
    if Nat(y[..l]) == Nat(c) {
      ToBitsNat(y[..l]);
      ToBitsNat(c);
      assert y[..l] == c;
      assert c <= y;
    }
    if c <= y { assert c == y[..l]; }
  }

  lemma EntryShort(lens: seq<nat>, n: nat, nodes: map<seq<bool>, nat>, y: seq<bool>, v: int, v': int)
    requires ValidCode(lens) && n < |lens| && 0 < lens[n] <= FAST_BITS && |y| == FAST_BITS
    requires NodesAre(lens, n, [], 0, nodes) && EntryOk(lens, n, nodes, y, v)
    requires v' == if CodeBits(lens, n) <= y then 512 * lens[n] + n else v
    ensures EntryOk(lens, n + 1, nodes, y, v')
  {
    hide CodeBits, ValidCode;
    if CodeBits(lens, n) <= y {
      if y in nodes {
        var s :| 0 <= s < n && s < |lens| && lens[s] > |y| && y <= CodeBits(lens, s);
        NotCode(lens, s, n, y);
      }
      forall s | 0 <= s < n + 1 && Short(lens, s, y) ensures s == n { PrefixFree(lens, s, n, y); }
      assert Short(lens, n, y);
    }
  }

  /** A short code word: the entries of all continuations of it. */
  lemma AddShort(lens: seq<nat>, n: nat, nodes: map<seq<bool>, nat>, look: seq<int>, look': seq<int>, tree: seq<int>)
    requires ValidCode(lens) && n < |lens| && 0 < lens[n] <= FAST_BITS && Holding(lens, n, [], 0, nodes, look, tree)
    requires |look'| == FAST_SIZE
    requires forall i :: 0 <= i < FAST_SIZE ==>
               look'[i] == if Low(i, lens[n]) == Nat(CodeBits(lens, n)) then 512 * lens[n] + n else look[i]
    ensures Holding(lens, n + 1, [], 0, nodes, look', tree)
  {
    hide CodeBits, IdsOk, TreeOk, IsNode, EntryOk, Low, Nat, ValidCode;
    ShortNodes(lens, n, nodes);
    ShortTree(lens, n, nodes, tree);
    forall y: seq<bool> | |y| == FAST_BITS && Nat(y) < FAST_SIZE ensures EntryOk(lens, n + 1, nodes, y, look'[Nat(y)]) {
      assert EntryOk(lens, n, nodes, y, look[Nat(y)]);
      LowOfNat(y, lens[n], CodeBits(lens, n));
      EntryShort(lens, n, nodes, y, look[Nat(y)], look'[Nat(y)]);
    }
  }

  lemma EmptyTable(lens: seq<nat>, look: seq<int>, tree: seq<int>)
    requires |look| == FAST_SIZE && |tree| == TREE_SIZE
    requires (forall i :: 0 <= i < FAST_SIZE ==> look[i] == 0) && (forall i :: 0 <= i < TREE_SIZE ==> tree[i] == 0)
    ensures Holding(lens, 0, [], 0, map[], look, tree)
  {
    hide CodeBits, Nat;
    forall p ensures !IsNode(lens, 0, p) {}
  }

  // ------------------------------------------------------------ the table

  ghost predicate Reads(lens: seq<nat>, y: seq<bool>, n: nat)
  {
    exists t: nat :: IsCode(lens, t, y) && lens[t] <= n
  }

  /** A complete code reads everything. */
  lemma AnyWord(lens: seq<nat>, y: seq<bool>)
    requires ValidCode(lens) && |y| == MAX_LEN
    ensures Complete(lens) ==> Reads(lens, y, MAX_LEN)
  {
    hide Complete, CodeBits;
    if Complete(lens) {
      var s := CompleteDecodes(lens, y);
      ValidLens(lens, s);
    }
  }

  lemma ShortOrNode(lens: seq<nat>, t: nat, y: seq<bool>)
    requires |y| == MAX_LEN && IsCode(lens, t, y)
    ensures if lens[t] <= FAST_BITS then Short(lens, t, y[..FAST_BITS]) else IsNode(lens, |lens|, y[..FAST_BITS])
  {
    hide CodeBits;
    if lens[t] > FAST_BITS {
      assert CodeBits(lens, t)[..FAST_BITS] == y[..FAST_BITS];
      NodeOf(lens, t, y[..FAST_BITS]);
    }
  }

  /** What the lookup entry says about a bit string. */
  lemma PeekEntry(lens: seq<nat>, nodes: map<seq<bool>, nat>, look: seq<int>, tree: seq<int>, y: seq<bool>, n: nat)
    requires ValidCode(lens) && Holding(lens, |lens|, [], 0, nodes, look, tree) && |lens| <= MAX_SYMS
    requires |y| == MAX_LEN && n <= MAX_LEN && Nat(y[..FAST_BITS]) < FAST_SIZE
    ensures |look| == FAST_SIZE
    ensures var x := y[..FAST_BITS];
            var temp := look[Nat(x)];
            if temp >= 0 then (Reads(lens, y, n) <==> temp / 512 != 0 && n >= temp / 512)
            else x in nodes && temp == NodeId(nodes[x]) && (n <= FAST_BITS ==> !Reads(lens, y, n))
  {
    hide ValidCode, CodeBits, Nat, IdsOk, TreeOk;
    var x := y[..FAST_BITS];
    var temp := look[Nat(x)];
    assert EntryOk(lens, |lens|, nodes, x, temp);
    if s: nat :| s < |lens| && Short(lens, s, x) {
      assert IsCode(lens, s, y);
      forall t: nat | IsCode(lens, t, y) ensures t == s { PrefixFree(lens, s, t, y); }
    } else if x in nodes {
      forall t: nat | IsCode(lens, t, y) ensures lens[t] > FAST_BITS { ShortOrNode(lens, t, y); }
    } else {
      assert NoShort(lens, |lens|, x);
      forall t: nat ensures !IsCode(lens, t, y) {
        if IsCode(lens, t, y) { ShortOrNode(lens, t, y); }
      }
    }
  }

  lemma LongerPrefix(c: seq<bool>, q: seq<bool>, y: seq<bool>)
    requires c <= y && q <= y && |q| <= |c|
    ensures q <= c && (|c| == |q| ==> c == q)
  {
  }

  /** Below a node on the way to a code word there is another node or its end. */
  lemma ChildExists(lens: seq<nat>, y: seq<bool>, m: nat) returns (s: nat)
    requires ValidCode(lens) && m < |y| && IsNode(lens, |lens|, y[..m]) && !IsNode(lens, |lens|, y[..m + 1])
      && Reads(lens, y, MAX_LEN)
    ensures IsLeaf(lens, s, y[..m + 1])
  {
    hide ValidCode, CodeBits;
    var t :| 0 <= t < |lens| && lens[t] > m && y[..m] <= CodeBits(lens, t);
    s :| IsCode(lens, s, y) && lens[s] <= MAX_LEN;
    var c := CodeBits(lens, s);
    if |c| <= m {
      assert c <= y[..m];
      NotCode(lens, t, s, y[..m]);
    } else {
      LongerPrefix(c, y[..m + 1], y);
    }
  }

  lemma NodeReadsNothing(lens: seq<nat>, y: seq<bool>, n: nat)
    requires ValidCode(lens) && n <= |y| && IsNode(lens, |lens|, y[..n])
    ensures !Reads(lens, y, n)
  {
    hide ValidCode, CodeBits;
    var s :| 0 <= s < |lens| && lens[s] > n && y[..n] <= CodeBits(lens, s);
    forall t: nat | IsCode(lens, t, y) ensures lens[t] > n {
      if lens[t] <= n {
        assert CodeBits(lens, t) <= y[..n];
        NotCode(lens, s, t, y[..n]);
      }
    }
  }

  /** One bit down, wherever it leads: on the way to a code word no slot is empty. */
  lemma PeekStep(lens: seq<nat>, nodes: map<seq<bool>, nat>, look: seq<int>, tree: seq<int>, y: seq<bool>, m: nat,
          n: nat)
    requires ValidCode(lens) && Holding(lens, |lens|, [], 0, nodes, look, tree)
    requires |y| == MAX_LEN && FAST_BITS <= m < n <= MAX_LEN && y[..m] in nodes
    requires Reads(lens, y, MAX_LEN)
    ensures |tree| == TREE_SIZE && nodes[y[..m]] < MAX_SYMS
    ensures var v := tree[2 * nodes[y[..m]] + Bit(y[m])];
            if v >= 0 then Reads(lens, y, n)
            else y[..m + 1] in nodes && v == NodeId(nodes[y[..m + 1]]) && (n == m + 1 ==> !Reads(lens, y, n))
  {
    hide ValidCode, CodeBits, Nat, LookOk, IsNode;
    var p, q := y[..m], y[..m + 1];
    assert ChildrenOk(lens, |lens|, nodes, tree, p);
    assert p + [y[m]] == q;
    assert IsNode(lens, |lens|, p);
    if q in nodes {
      if n == m + 1 { NodeReadsNothing(lens, y, n); }
    } else {
      var s := ChildExists(lens, y, m);
      assert IsCode(lens, s, y);
    }
  }

  ghost function UsedUpTo(lens: seq<nat>, l: nat): nat
  {
    if l == 0 then 0 else UsedUpTo(lens, l - 1) + Count(lens, l)
  }

  lemma NoneYet(lens: seq<nat>)
    ensures UsedUpTo(lens, 0) == 0 && End(lens, 0) == 0 && NextCode(lens, 1) == 0
  {
  }

  lemma CountNone(lens: seq<nat>)
    ensures forall l :: Count(lens[..0], l) == 0
  {
  }

  lemma {:induction false} LoneUsed(lens: seq<nat>, l: nat)
    requires Lone(lens)
    ensures UsedUpTo(lens, l) == 0 || (UsedUpTo(lens, l) == 1 && exists s :: 0 <= s < |lens| && 0 < lens[s] <= l)
  {
    if l == 0 {
    } else {
      LoneUsed(lens, l - 1);
      if s :| 0 <= s < |lens| && lens[s] == l {
        LoneCount(lens, s);
      } else {
        NoneOfLength(lens, l);
      }
    }
  }

  lemma {:induction false} UsedAtLeast(lens: seq<nat>, a: nat, b: nat, l: nat)
    requires 1 <= a <= b <= l
    ensures UsedUpTo(lens, l) >= Count(lens, b) + (if a < b then Count(lens, a) else 0)
    decreases l
  {
    if b < l {
      UsedAtLeast(lens, a, b, l - 1);
    } else if a < b {
      UsedAtLeast(lens, a, a, l - 1);
    }
  }

  lemma TwoUsed(lens: seq<nat>, i: nat, j: nat)
    requires i < j < |lens| && 0 < lens[i] <= MAX_LEN && 0 < lens[j] <= MAX_LEN
    ensures UsedUpTo(lens, MAX_LEN) >= 2
  {
    hide Count, UsedUpTo;
    assert lens[..|lens|] == lens;
    CountStrict(lens, j, |lens|, lens[j]);
    if lens[i] == lens[j] {
      CountStrict(lens, i, j, lens[i]);
      UsedAtLeast(lens, lens[i], lens[i], MAX_LEN);
    } else {
      CountStrict(lens, i, |lens|, lens[i]);
      if lens[i] < lens[j] {
        UsedAtLeast(lens, lens[i], lens[j], MAX_LEN);
      } else {
        UsedAtLeast(lens, lens[j], lens[i], MAX_LEN);
      }
    }
  }

  /** The check on the sums accepts exactly the valid codes. */
  lemma CheckIsValid(lens: seq<nat>)
    requires forall i :: 0 <= i < |lens| ==> lens[i] <= MAX_LEN
    ensures ValidCode(lens) <==> End(lens, MAX_LEN) == Pow2(MAX_LEN) || UsedUpTo(lens, MAX_LEN) <= 1
  {
    hide End, Count;
    if Lone(lens) {
      LoneUsed(lens, MAX_LEN);
    } else {
      var i, j :| 0 <= i < j < |lens| && lens[i] > 0 && lens[j] > 0;
      TwoUsed(lens, i, j);
    }
  }

  lemma EntryBits(v: nat)
    ensures Nat(ToBits(v, FAST_BITS)) == Low(v, FAST_BITS) < FAST_SIZE
    ensures ToBits(v, MAX_LEN)[..FAST_BITS] == ToBits(v, FAST_BITS)
  {
    hide ToBits, Nat, Low;
    NatToBits(v, FAST_BITS);
    Pow2Small();
    ToBitsSplit(v, FAST_BITS, MAX_LEN - FAST_BITS);
  }

  lemma PrefixOf(w: seq<bool>, x: seq<bool>, n: nat)
    requires w <= x && |w| <= n <= |x|
    ensures w <= x[..n]
  {
  }

  lemma PrefixSame(w: seq<bool>, x: seq<bool>, n: nat)
    requires w <= x && n <= |w|
    ensures w[..n] == x[..n]
  {
  }

  lemma ShortEntry(lens: seq<nat>, nodes: map<seq<bool>, nat>, look: seq<int>, tree: seq<int>, s: nat, x: seq<bool>)
    requires Holding(lens, |lens|, [], 0, nodes, look, tree) && |lens| <= MAX_SYMS
    requires s < |lens| && 0 < lens[s] <= FAST_BITS && |x| == FAST_BITS && Nat(x) < FAST_SIZE
    ensures |look| == FAST_SIZE && (CodeBits(lens, s) <= x ==> look[Nat(x)] == 512 * lens[s] + s)
  {
    hide CodeBits, Nat, IdsOk, TreeOk, NodesAre;
    assert EntryOk(lens, |lens|, nodes, x, look[Nat(x)]);
    if CodeBits(lens, s) <= x { assert Short(lens, s, x); }
  }

  lemma LongEntry(lens: seq<nat>, nodes: map<seq<bool>, nat>, look: seq<int>, tree: seq<int>, s: nat)
    requires Holding(lens, |lens|, [], 0, nodes, look, tree)
    requires s < |lens| && lens[s] > FAST_BITS
    ensures var x := CodeBits(lens, s)[..FAST_BITS];
            |look| == FAST_SIZE && x in nodes && (Nat(x) < FAST_SIZE ==> look[Nat(x)] == NodeId(nodes[x]))
  {
    hide CodeBits, Nat, IdsOk, TreeOk, IsNode;
    var x := CodeBits(lens, s)[..FAST_BITS];
    NodeOf(lens, s, x);
    if Nat(x) < FAST_SIZE { assert EntryOk(lens, |lens|, nodes, x, look[Nat(x)]); }
  }

  /** One bit down from a node on the way to symbol `s`. */
  lemma TreeStep(lens: seq<nat>, nodes: map<seq<bool>, nat>, look: seq<int>, tree: seq<int>, s: nat, m: nat)
    requires Holding(lens, |lens|, [], 0, nodes, look, tree)
    requires s < |lens| && FAST_BITS <= m < lens[s]
    ensures var w := CodeBits(lens, s);
            && |tree| == TREE_SIZE && w[..m] in nodes && nodes[w[..m]] < MAX_SYMS
            && (var v := tree[2 * nodes[w[..m]] + Bit(w[m])];
                if m + 1 < lens[s] then w[..m + 1] in nodes && v == NodeId(nodes[w[..m + 1]]) else v == s)
  {
    hide CodeBits, Nat, LookOk, IsNode;
    var w := CodeBits(lens, s);
    var p, q := w[..m], w[..m + 1];
    NodeOf(lens, s, p);
    assert ChildrenOk(lens, |lens|, nodes, tree, p);
    assert p + [w[m]] == q;
    if m + 1 < lens[s] {
      NodeOf(lens, s, q);
    } else {
      assert q == w && IsLeaf(lens, s, q);
    }
  }

  lemma FirstBit(v: nat, n: nat)
    requires n > 0
    ensures ToBits(v, n)[0] == (v % 2 == 1)
  {
  }

  lemma BitOf(v: nat, w: seq<bool>, m: nat)
    requires w <= ToBits(v, MAX_LEN) && m < |w|
    ensures Shr(v, m) % 2 == Bit(w[m])
  {
    hide ToBits, Shr;
    ToBitsSplit(v, m, MAX_LEN - m);
    assert m + (MAX_LEN - m) == MAX_LEN;
    assert w[m] == ToBits(v, MAX_LEN)[m] == ToBits(Shr(v, m), MAX_LEN - m)[0];
    FirstBit(Shr(v, m), MAX_LEN - m);
  }

  lemma ShrOne(v: nat)
    ensures Shr(v, 1) == v / 2
  {
  }

  lemma NextBit(rev: nat, w: seq<bool>, m: nat)
    requires ToBits(rev, |w|) == w && 1 <= m < |w|
    ensures Shr(rev, m - 1) / 2 == Shr(rev, m) && Shr(rev, m) % 2 == Bit(w[m])
  {
    hide ToBits, Shr;
    ShrShr(rev, m - 1, 1);
    ShrOne(Shr(rev, m - 1));
    assert m - 1 + 1 == m;
    ToBitsSplit(rev, m, |w| - m);
    assert m + (|w| - m) == |w|;
    assert w[m] == ToBits(Shr(rev, m), |w| - m)[0];
    FirstBit(Shr(rev, m), |w| - m);
  }

  /** Slot 0 means that there is no node: no code word ends where another goes on. */
  lemma SlotTest(lens: seq<nat>, n: nat, w: seq<bool>, m: nat, nodes: map<seq<bool>, nat>, look: seq<int>,
          tree: seq<int>)
    requires ValidCode(lens) && n < |lens| && w == CodeBits(lens, n) && m + 1 < |w|
    requires Holding(lens, n, w, m, nodes, look, tree) && w[..m] in nodes
    ensures nodes[w[..m]] < MAX_SYMS && |tree| == TREE_SIZE
    ensures var v := tree[2 * nodes[w[..m]] + Bit(w[m])];
            var q := w[..m + 1];
            if q in nodes then v == NodeId(nodes[q]) else v == 0
  {
    hide ValidCode, CodeBits, LookOk, NodesAre, IsLeaf;
    var p, q := w[..m], w[..m + 1];
    assert ChildrenOk(lens, n, nodes, tree, p);
    assert p + [w[m]] == q;
    forall s | 0 <= s < n ensures !IsLeaf(lens, s, q) { LeafNotPrefix(lens, n, s, q); }
  }

  lemma NodeAdded(lens: seq<nat>, n: nat, w: seq<bool>, m: nat, nodes: map<seq<bool>, nat>, look: seq<int>,
          tree: seq<int>,
                  before: map<seq<bool>, nat>, q: seq<bool>)
    requires q !in before && nodes == before[q := |before|]
    ensures |nodes| == |before| + 1 && q in nodes && nodes[q] == |before|
  {
    assert nodes.Keys == before.Keys + {q};
  }

  lemma EntryAt(rev: nat, w: seq<bool>)
    requires ToBits(rev, |w|) == w && |w| >= FAST_BITS
    ensures Low(rev, FAST_BITS) == Nat(w[..FAST_BITS]) < FAST_SIZE
  {
    hide ToBits, Nat, Low;
    ToBitsSplit(rev, FAST_BITS, |w| - FAST_BITS);
    assert FAST_BITS + (|w| - FAST_BITS) == |w|;
    assert w[..FAST_BITS] == ToBits(rev, FAST_BITS);
    NatToBits(rev, FAST_BITS);
    Pow2Small();
  }

  lemma StartWord(lens: seq<nat>, n: nat, w: seq<bool>, nodes: map<seq<bool>, nat>, look: seq<int>, tree: seq<int>)
    requires Holding(lens, n, [], 0, nodes, look, tree)
    ensures Holding(lens, n, w, FAST_BITS - 1, nodes, look, tree)
  {
    hide IdsOk, TreeOk, LookOk, IsNode;
  }

  /** Entry 0 means that there is no node. */
  lemma LookTest(lens: seq<nat>, n: nat, w: seq<bool>, m: nat, nodes: map<seq<bool>, nat>, look: seq<int>,
          tree: seq<int>)
    requires ValidCode(lens) && n < |lens| && w == CodeBits(lens, n) && lens[n] > FAST_BITS
    requires Holding(lens, n, w, m, nodes, look, tree)
    ensures var x := w[..FAST_BITS];
            Nat(x) < FAST_SIZE ==>
              |look| == FAST_SIZE && (if x in nodes then look[Nat(x)] == NodeId(nodes[x]) else look[Nat(x)] == 0)
  {
    hide ValidCode, CodeBits, Nat, IdsOk, TreeOk, NodesAre;
    var x := w[..FAST_BITS];
    if Nat(x) < FAST_SIZE {
      assert EntryOk(lens, n, nodes, x, look[Nat(x)]);
      forall s | 0 <= s < n ensures !Short(lens, s, x) {
        if s < |lens| && lens[s] > 0 { NotCode(lens, n, s, x); }
      }
    }
  }

  lemma SkipNode(lens: seq<nat>, n: nat, w: seq<bool>, m: nat, nodes: map<seq<bool>, nat>, look: seq<int>,
          tree: seq<int>)
    requires Holding(lens, n, w, m, nodes, look, tree) && m < |w| && w[..m + 1] in nodes
    ensures Holding(lens, n, w, m + 1, nodes, look, tree)
  {
    hide IdsOk, TreeOk, LookOk, IsNode;
    forall p | FAST_BITS <= |p| <= m + 1 && p <= w ensures p in nodes {
      if |p| == m + 1 { assert p == w[..m + 1]; }
    }
  }

  lemma NodeCount(lens: seq<nat>, n: nat, w: seq<bool>, m: nat, nodes: map<seq<bool>, nat>, look: seq<int>,
          tree: seq<int>, x: seq<bool>)
    requires Holding(lens, n, w, m, nodes, look, tree) && x in nodes
    ensures nodes[x] < |nodes|
  {
    hide TreeOk, LookOk, NodesAre;
  }

  lemma ModStep(v: nat, p: nat)
    requires p >= 1
    ensures (v + p) % p == v % p
  {
    assert v + p == (v / p + 1) * p + v % p;
    ModUnique(v + p, p, v / p + 1, v % p);
  }

  lemma ModBetween(v: nat, i: nat, p: nat)
    requires p >= 1 && v < i < v + p
    ensures i % p != v % p
  {
    var a, b := v / p, i / p;
    assert v == a * p + v % p && i == b * p + i % p;
    MulSign(b - a, p);
    assert (b - a) * p == b * p - a * p;
  }

  /** Numbers with the same low bits are a power of two apart. */
  lemma NextLow(v: nat, l: nat)
    ensures Shl(1, l) == Pow2(l) && Low(v + Pow2(l), l) == Low(v, l)
    ensures forall i :: v < i < v + Pow2(l) ==> Low(i, l) != Low(v, l)
  {
    hide Low;
    ShlIsMul(1, l);
    LowMod(v, l);
    LowMod(v + Pow2(l), l);
    ModStep(v, Pow2(l));
    forall i: nat | v < i < v + Pow2(l) ensures Low(i, l) != Low(v, l) {
      LowMod(i, l);
      ModBetween(v, i, Pow2(l));
    }
  }

  lemma LowBelow(v: nat, l: nat)
    requires v < Pow2(l)
    ensures forall i :: 0 <= i <= v ==> Low(i, l) == i
  {
    forall i: nat | i <= v ensures Low(i, l) == i { LowId(i, l); }
  }

  class Table {
    const size: array<nat>
    const look: array<int>
    const tree: array<int>
    /** The lengths the table was built for, and its nodes. */
    ghost var lens: seq<nat>
    ghost var nodes: map<seq<bool>, nat>

    constructor ()
      ensures fresh(size) && fresh(look) && fresh(tree) && Shape()
    {
      size := new nat[MAX_SYMS](_ => 0);
      look := new int[FAST_SIZE](_ => 0);
      tree := new int[TREE_SIZE](_ => 0);
      lens, nodes := [], map[];
    }

    predicate Shape()
    {
      size.Length == MAX_SYMS && look.Length == FAST_SIZE && tree.Length == TREE_SIZE && look != tree
    }

    /** Ready to decode with the code of `l`. */
    ghost predicate Decodes(l: seq<nat>)
      reads this, look, tree
    {
      && Shape() && |l| <= MAX_SYMS && ValidCode(l) && lens == l
      && Holding(l, |l|, [], 0, nodes, look[..], tree[..])
    }

    method Clear()
      requires Shape()
      modifies look, tree
      ensures forall i :: 0 <= i < FAST_SIZE ==> look[i] == 0
      ensures forall i :: 0 <= i < TREE_SIZE ==> tree[i] == 0
    {
      for i := 0 to FAST_SIZE
        invariant forall k :: 0 <= k < i ==> look[k] == 0
      {
        look[i] := 0;
      }
      for i := 0 to TREE_SIZE
        invariant forall k :: 0 <= k < i ==> tree[k] == 0
        invariant forall k :: 0 <= k < FAST_SIZE ==> look[k] == 0
      {
        tree[i] := 0;
      }
    }

    /** All entries that continue a short code word. */
    method PutShort(rev0: nat, l: nat, k: int)
      requires Shape() && 1 <= l <= FAST_BITS && rev0 < Pow2(l)
      modifies look
      ensures forall i :: 0 <= i < FAST_SIZE ==> look[i] == if Low(i, l) == rev0 then k else old(look[i])
    {
      hide Low;
      var rev := rev0;
      LowBelow(rev0, l);
      while rev < FAST_SIZE
        invariant rev >= rev0 && Low(rev, l) == rev0
        invariant forall i :: 0 <= i < FAST_SIZE ==> look[i] == if i < rev && Low(i, l) == rev0 then k else old(look[i])
      {
        look[rev] := k;
        NextLow(rev, l);
        rev := rev + Shl(1, l);
      }
    }

    ghost predicate Has(n: nat, w: seq<bool>, m: nat)
      reads this, look, tree
    {
      Shape() && Holding(lens, n, w, m, nodes, look[..], tree[..])
    }

    /** The first ten bits of a long code word lead to a node. */
    method EnterLook(n: nat, ghost w: seq<bool>, rev: nat, next0: int) returns (cur: int, next: int)
      requires ValidCode(lens) && n < |lens| <= MAX_SYMS && w == CodeBits(lens, n) && lens[n] > FAST_BITS
      requires Has(n, [], 0) && next0 == NodeId(|nodes|) && ToBits(rev, |w|) == w
      modifies this`nodes, look
      ensures Has(n, w, FAST_BITS) && next == NodeId(|nodes|)
      ensures w[..FAST_BITS] in nodes && cur == NodeId(nodes[w[..FAST_BITS]])
    {
      hide Holding, ValidCode, CodeBits, ToBits, Low, Nat, Pow2;
      ghost var x := w[..FAST_BITS];
      var at := Low(rev, FAST_BITS);
      EntryAt(rev, w);
      StartWord(lens, n, w, nodes, look[..], tree[..]);
      LookTest(lens, n, w, FAST_BITS - 1, nodes, look[..], tree[..]);
      next, cur := next0, look[at];
      if cur == 0 {
        AddAtLook(lens, n, w, nodes, look[..], tree[..], x);
        look[at] := next;
        cur := next;
        nodes := nodes[x := |nodes|];
        next := next - 2;
        NodeCount(lens, n, w, FAST_BITS, nodes, look[..], tree[..], x);
      } else {
        SkipNode(lens, n, w, FAST_BITS - 1, nodes, look[..], tree[..]);
      }
    }

    /** One bit further down the tree. */
    method EnterTree(n: nat, ghost w: seq<bool>, ghost m: nat, rev: nat, cur0: int, next0: int) returns (cur: int,
            next: int)
      requires ValidCode(lens) && n < |lens| <= MAX_SYMS && w == CodeBits(lens, n) && FAST_BITS <= m && m + 1 < |w|
      requires Has(n, w, m) && next0 == NodeId(|nodes|) && w[..m] in nodes && cur0 == NodeId(nodes[w[..m]])
      requires rev % 2 == Bit(w[m])
      modifies this`nodes, tree
      ensures Has(n, w, m + 1) && next == NodeId(|nodes|)
      ensures w[..m + 1] in nodes && cur == NodeId(nodes[w[..m + 1]])
    {
      hide Holding, ValidCode, CodeBits;
      ghost var q := w[..m + 1];
      cur, next := cur0 - rev % 2, next0;
      SlotTest(lens, n, w, m, nodes, look[..], tree[..]);
      var at := -cur - 1;
      if tree[at] == 0 {
        AddAtTree(lens, n, w, m, nodes, look[..], tree[..]);
        tree[at] := next;
        cur := next;
        nodes := nodes[q := |nodes|];
        next := next - 2;
        NodeAdded(lens, n, w, m + 1, nodes, look[..], tree[..], old(nodes), q);
      } else {
        SkipNode(lens, n, w, m, nodes, look[..], tree[..]);
        cur := tree[at];
      }
    }

    /** A code word of more than ten bits. */
    method InsertLong(n: nat, len: nat, rev0: nat, next0: int) returns (next: int)
      requires ValidCode(lens) && n < |lens| <= MAX_SYMS && lens[n] == len > FAST_BITS && Has(n, [], 0)
      requires ToBits(rev0, len) == CodeBits(lens, n) && next0 == NodeId(|nodes|)
      modifies this`nodes, look, tree
      ensures Has(n + 1, [], 0) && next == NodeId(|nodes|)
    {
      hide Holding, ValidCode, CodeBits, ToBits, Shr;
      ghost var w := CodeBits(lens, n);
      var cur;
      cur, next := EnterLook(n, w, rev0, next0);
      var rev := Shr(rev0, FAST_BITS - 1);
      var j := len;
      ghost var m := FAST_BITS;
      while j > FAST_BITS + 1
        invariant m == FAST_BITS + (|w| - j) && FAST_BITS + 1 <= j <= |w| && Has(n, w, m) && next == NodeId(|nodes|)
        invariant w[..m] in nodes && cur == NodeId(nodes[w[..m]]) && rev == Shr(rev0, m - 1)
      {
        NextBit(rev0, w, m);
        rev := rev / 2;
        cur, next := EnterTree(n, w, m, rev, cur, next);
        j, m := j - 1, m + 1;
      }
      NextBit(rev0, w, m);
      rev := rev / 2;
      AddLeaf(lens, n, w, nodes, look[..], tree[..]);
      cur := cur - rev % 2;
      tree[-cur - 1] := n;
    }

    /** A code word of at most ten bits. */
    method InsertShort(n: nat, len: nat, rev: nat)
      requires ValidCode(lens) && n < |lens| <= MAX_SYMS && 0 < lens[n] == len <= FAST_BITS && Has(n, [], 0)
      requires ToBits(rev, len) == CodeBits(lens, n) && rev < Pow2(len)
      modifies look
      ensures Has(n + 1, [], 0)
    {
      hide Holding, ValidCode, CodeBits, ToBits, Low, Nat;
      ghost var before := look[..];
      NatToBits(rev, len);
      LowId(rev, len);
      PutShort(rev, len, 512 * len + n);
      AddShort(lens, n, nodes, before, look[..], tree[..]);
    }

    method CountSizes(n: nat) returns (totals: array<nat>)
      requires Shape() && n <= MAX_SYMS && forall i :: 0 <= i < n ==> size[i] <= MAX_LEN
      ensures fresh(totals) && totals.Length == 16 && forall l :: 0 <= l <= MAX_LEN ==> totals[l] == Count(size[..n], l)
    {
      totals := new nat[16](_ => 0);
      for i := 0 to n
        invariant forall l :: 0 <= l <= MAX_LEN ==> totals[l] == Count(size[..i], l)
      {
        forall l ensures Count(size[..i + 1], l) == Count(size[..i], l) + (if size[i] == l then 1 else 0) {
          CountStep(size[..], i, l);
          assert size[..][..i + 1] == size[..i + 1] && size[..][..i] == size[..i];
        }
        totals[size[i]] := totals[size[i]] + 1;
      }
    }

    /** Count the lengths, check them, and find the first code word of each. */
    method FirstWords(n: nat) returns (ok: bool, next: array<nat>)
      requires Shape() && n <= MAX_SYMS && forall i :: 0 <= i < n ==> size[i] <= MAX_LEN
      ensures fresh(next) && next.Length == 17
      ensures ok <==> End(size[..n], MAX_LEN) == Pow2(MAX_LEN) || UsedUpTo(size[..n], MAX_LEN) <= 1
      ensures forall l :: 1 <= l <= MAX_LEN ==> next[l] == NextCode(size[..n], l)
    {
      hide Count;
      var totals := CountSizes(n);
      next := new nat[17](_ => 0);
      var used, total := 0, 0;
      NoneYet(size[..n]);
      for i := 1 to 16
        invariant used == UsedUpTo(size[..n], i - 1) && total == 2 * End(size[..n], i - 1)
        invariant forall l :: 1 <= l <= i ==> next[l] == NextCode(size[..n], l)
        invariant forall l :: 0 <= l <= MAX_LEN ==> totals[l] == Count(size[..n], l)
      {
        used := used + totals[i];
        total := (total + totals[i]) * 2;
        next[i + 1] := total;
      }
      Pow2Small();
      ok := total == 65536 || used <= 1;
    }

    method FillTable(n: nat, next: array<nat>)
      requires Shape() && n <= MAX_SYMS && lens == size[..n] && ValidCode(lens) && Has(0, [], 0) && nodes == map[]
      requires next.Length == 17 && next != size && forall l :: 1 <= l <= MAX_LEN ==> next[l] == NextCode(lens, l)
      requires forall i :: 0 <= i < n ==> size[i] <= MAX_LEN
      modifies this`nodes, look, tree, next
      ensures Has(n, [], 0)
    {
      hide ValidCode, Holding, NextCode, Count;
      var free := -1;
      CountNone(lens);
      for i := 0 to n
        invariant Has(i, [], 0) && free == NodeId(|nodes|)
        invariant forall l :: 1 <= l <= MAX_LEN ==> next[l] == NextCode(lens, l) + Count(lens[..i], l)
      {
        var l := size[i];
        forall k ensures Count(lens[..i + 1], k) == Count(lens[..i], k)
          + (if lens[i] == k then 1 else 0) {
          CountStep(lens, i, k);
        }
        if l == 0 {
          AddNothing(lens, i, nodes, look[..], tree[..]);
        } else {
          var code := next[l];
          next[l] := code + 1;
          var rev := ReverseBits(code, l);
          if l <= FAST_BITS {
            InsertShort(i, l, rev);
          } else {
            free := InsertLong(i, l, rev, free);
          }
        }
      }
    }

    /** Build the table for the first `n` code lengths; false for lengths that are
        no code. */
    method Build(n: nat) returns (ok: bool)
      requires Shape() && n <= MAX_SYMS && forall i :: 0 <= i < n ==> size[i] <= MAX_LEN
      modifies this, look, tree
      ensures ok <==> ValidCode(size[..n])
      ensures ok ==> Decodes(size[..n])
    {
      hide ValidCode, Complete, CodeBits, Holding, UsedUpTo, Count, NextCode, End, Pow2;
      Clear();
      lens, nodes := size[..n], map[];
      var next;
      ok, next := FirstWords(n);
      CheckIsValid(lens);
      if !ok { return; }
      EmptyTable(lens, look[..], tree[..]);
      FillTable(n, next);
    }

    /** The lookup of TINFL_HUFF_DECODE: any register whose low bits begin with a
        code word gives its symbol and its length. */
    method Decode(v: nat, ghost s: nat) returns (raw: nat, len: nat)
      requires Decodes(lens) && IsCode(lens, s, ToBits(v, MAX_LEN))
      ensures raw % 512 == s && raw < 65536 && len == lens[s] && s < MAX_SYMS
    {
      hide Holding, ValidCode, CodeBits, ToBits, Low, Nat, Shr;
      ghost var w := CodeBits(lens, s);
      EntryBits(v);
      var temp := look[Low(v, FAST_BITS)];
      if lens[s] <= FAST_BITS {
        ShortEntry(lens, nodes, look[..], tree[..], s, ToBits(v, FAST_BITS));
        PrefixOf(w, ToBits(v, MAX_LEN), FAST_BITS);
      } else {
        LongEntry(lens, nodes, look[..], tree[..], s);
        PrefixSame(w, ToBits(v, MAX_LEN), FAST_BITS);
      }
      if temp >= 0 {
        raw, len := temp, temp / 512;
      } else {
        len := FAST_BITS;
        while true
          invariant FAST_BITS <= len < |w| && w[..len] in nodes && temp == NodeId(nodes[w[..len]])
          decreases |w| - len
        {
          TreeStep(lens, nodes, look[..], tree[..], s, len);
          BitOf(v, w, len);
          temp := tree[-temp - 1 + Shr(v, len) % 2];
          len := len + 1;
          if temp >= 0 { break; }
        }
        raw := temp;
      }
    }

    /** Do the first `numBits` bits of the register hold a whole code word? */
    ghost predicate Suffices(v: nat, numBits: nat)
      reads this
    {
      exists t: nat :: IsCode(lens, t, ToBits(v, MAX_LEN)) && lens[t] <= numBits
    }

    /** The test of TINFL_HUFF_BITBUF_FILL: exact, so that not one byte too many
        is read. */
    method Peek(v: nat, numBits: nat) returns (found: bool)
      requires Decodes(lens) && numBits <= MAX_LEN && (Complete(lens) || Suffices(v, MAX_LEN))
      ensures found <==> Suffices(v, numBits)
    {
      hide Holding, ValidCode, CodeBits, ToBits, Low, Nat, Shr, IsCode;
      ghost var y := ToBits(v, MAX_LEN);
      AnyWord(lens, y);
      EntryBits(v);
      PeekEntry(lens, nodes, look[..], tree[..], y, numBits);
      var temp := look[Low(v, FAST_BITS)];
      if temp >= 0 {
        found := temp / 512 != 0 && numBits >= temp / 512;
      } else if numBits > FAST_BITS {
        var len := FAST_BITS;
        while true
          invariant FAST_BITS <= len < numBits && y[..len] in nodes && temp == NodeId(nodes[y[..len]])
          decreases numBits - len
        {
          PeekStep(lens, nodes, look[..], tree[..], y, len, numBits);
          BitOf(v, y, len);
          temp := tree[-temp - 1 + Shr(v, len) % 2];
          len := len + 1;
          if !(temp < 0 && numBits >= len + 1) { break; }
        }
        found := temp >= 0;
      } else {
        found := false;
      }
    }
  }
}
