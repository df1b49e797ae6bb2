/**
  What limiting the code length costs. A symbol at depth `d` has at most a
  Fibonacci share of the total weight, so the room that the deep words need is
  cheap: lengthening one word of `d` bits to 15 makes room for 2^(15-d) - 1 more.
 */
module LimitCost {
  import opened Bits
  import opened Canonical
  import opened MergeTree
  import opened OptimalCode
  import opened MinRedundancy
  import opened LengthLimit

  /** Bits of cost and words of room are paid for at this rate. */
  const RATE: nat := 540

  // ---------------------------------------------------------- one lengthening

  lemma FibTable()
    ensures Fib(0) == 1 && Fib(1) == 2 && Fib(2) == 3 && Fib(3) == 5 && Fib(4) == 8 && Fib(5) == 13 && Fib(6) == 21
    ensures Fib(7) == 34 && Fib(8) == 55 && Fib(9) == 89 && Fib(10) == 144 && Fib(11) == 233 && Fib(12) == 377
      && Fib(13) == 610
  {
    assert Fib(3) == 5;
    assert Fib(6) == 21;
    assert Fib(9) == 89;
    assert Fib(12) == 377;
  }

  lemma PowTable()
    ensures Pow2(0) == 1 && Pow2(1) == 2 && Pow2(2) == 4 && Pow2(3) == 8 && Pow2(4) == 16 && Pow2(5) == 32
      && Pow2(6) == 64
    ensures Pow2(7) == 128 && Pow2(8) == 256 && Pow2(9) == 512 && Pow2(10) == 1024 && Pow2(11) == 2048
      && Pow2(12) == 4096
    ensures Pow2(13) == 8192 && Pow2(14) == 16384 && Pow2(15) == 32768
  {
    assert Pow2(3) == 8;
    assert Pow2(6) == 64;
    assert Pow2(9) == 512;
    assert Pow2(12) == 4096;
  }

  lemma RateTable(d: nat)
    requires 1 <= d < 15
    ensures RATE * (15 - d) <= Fib(d - 1) * (Pow2(15 - d) - 1)
  {
    hide Fib, Pow2;
    FibTable();
    PowTable();
    if d == 1 {} else if d == 2 {} else if d == 3 {} else if d == 4 {} else if d == 5 {} else if d == 6 {}
    else if d == 7 {} else if d == 8 {} else if d == 9 {} else if d == 10 {} else if d == 11 {} else if d == 12 {}
    else if d == 13 {} else {}
  }

  lemma Times(x: nat, a: nat, b: nat)
    requires a <= b
    ensures x * a <= x * b
  {
  }

  lemma RateArithmetic(x: nat, f: nat, p: nat, b: nat, total: nat)
    requires x * f <= total && b <= f * p
    ensures x * b <= total * p
  {
    Times(x, b, f * p);
    Times(p, x * f, total);
    assert x * (f * p) == p * (x * f);
  }

  lemma Regroup(x: nat, r: nat, b: nat)
    ensures x * (r * b) == r * (x * b)
  {
  }

  /** Lengthening a symbol to the limit costs no more than the room it makes. */
  lemma ShareRate(x: nat, d: nat, total: nat)
    requires Share(x, d, total) && 1 <= d < 15
    ensures RATE * (x * (15 - d)) <= total * (Pow2(15 - d) - 1)
  {
    RateTable(d);
    hide Fib, Pow2;
    RateArithmetic(x, Fib(d - 1), Pow2(15 - d) - 1, RATE * (15 - d), total);
    Regroup(x, RATE, 15 - d);
  }

  lemma Distribute(t: nat, a: int, b: int)
    ensures t * (a + b) == t * a + t * b
  {
  }

  lemma OneSymbol(x: nat, u: nat, l: nat, total: nat)
    requires Share(x, u, total) && 1 <= u && l <= 15
    ensures RATE * (x * l) <= RATE * (x * u) + total * (Pow2(15 - if u > 15 then 15 else u) - 1)
  {
    hide Share;
    if u < 15 {
      hide Pow2;
      ShareRate(x, u, total);
      Times(x, l, 15);
      Distribute(x, u, 15 - u);
    } else {
      Times(x, l, u);
      assert total * 0 == 0;
    }
  }

  // ------------------------------------------------------------ all together

  ghost function Least(a: nat, b: nat): nat
  {
    if a < b then a else b
  }

  lemma EmptyCost()
    ensures Cost([], []) == 0 && KraftSum([], 15) == 0
  {
  }

  lemma Snoc(s: seq<nat>, i: nat)
    requires i < |s|
    ensures s[..i + 1] == s[..i] + [s[i]]
  {
  }

  /** The cost of the first `k` symbols. */
  lemma {:induction false} PrefixCost(w: seq<nat>, u: seq<nat>, l: seq<nat>, cut: nat, k: nat, total: nat)
    requires |w| == |u| == |l| && k <= |w| && Lengthened(Capped(u, 15), l, 15, cut)
    requires forall i :: 0 <= i < |u| ==> u[i] >= 1 && Share(w[i], u[i], total)
    ensures Between(Capped(u, 15)[..Least(k, cut)], 15)
    ensures RATE * Cost(w[..k], l[..k]) <= RATE * Cost(w[..k], u[..k])
            + total * (KraftSum(Capped(u, 15)[..Least(k, cut)], 15) - Least(k, cut))
  {
    hide Cost, KraftSum, Share, Pow2;
    var v := Capped(u, 15);
    if k == 0 {
      assert w[..0] == [] && l[..0] == [] && u[..0] == [] && v[..0] == [];
      EmptyCost();
    } else {
      var i := k - 1;
      PrefixCost(w, u, l, cut, i, total);
      Snoc(w, i);
      Snoc(l, i);
      Snoc(u, i);
      CostAppend(w[..i], l[..i], w[i], l[i]);
      CostAppend(w[..i], u[..i], w[i], u[i]);
      if i < cut {
        Snoc(v, i);
        KraftAppend(v[..i], 15, v[i]);
        OneSymbol(w[i], u[i], l[i], total);
        Distribute(total, KraftSum(v[..i], 15) - i, Pow2(15 - v[i]) - 1);
      } else {
        Times(w[i], l[i], u[i]);
      }
    }
  }

  lemma {:induction false} KraftScaled(x: seq<nat>, m: nat, d: nat)
    requires forall i :: 0 <= i < |x| ==> x[i] <= m
    ensures KraftSum(x, m + d) == KraftSum(x, m) * Pow2(d)
  {
    hide KraftSum;
    if d == 0 {
    } else {
      KraftScaled(x, m, d - 1);
      KraftCoarser(x, m + d - 1);
      Regroup(KraftSum(x, m), 2, Pow2(d - 1));
    }
  }

  lemma {:induction false} KraftAtLeast(x: seq<nat>, d: nat)
    requires forall i :: 0 <= i < |x| ==> x[i] <= d
    ensures KraftSum(x, d) >= |x|
  {
    if x == [] {
    } else {
      KraftAtLeast(x[1..], d);
    }
  }

  lemma GapArithmetic(p: nat, q: nat, s: nat, t: nat)
    requires s * p < p * t
    ensures s * q + q <= q * t
  {
    if s >= t { Times(p, t, s); }
    Times(q, s + 1, t);
    Distribute(q, s, 1);
  }

  /** A part of a complete code whose longest word has `m` bits leaves a gap of
      one word of that length. */
  lemma GapOfOne(u: seq<nat>, k: nat, m: nat)
    requires Between(u, 32) && KraftSum(u, 32) == Pow2(32) && 1 <= k <= |u| && m <= 15
    requires forall i :: k <= i < |u| ==> u[i] <= m
    ensures Between(u[k..], 15) && KraftSum(u[k..], 15) + Pow2(15 - m) <= Pow2(15)
  {
    hide KraftSum, Pow2;
    var x := u[k..];
    KraftSplit(u, 32, k);
    KraftAtLeast(u[..k], 32);
    KraftScaled(x, m, 32 - m);
    KraftScaled(x, m, 15 - m);
    Pow2Add(32 - m, m);
    Pow2Add(15 - m, m);
    GapArithmetic(Pow2(32 - m), Pow2(15 - m), KraftSum(x, m), Pow2(m));
  }

  /** The room needed is at most one word for each symbol at the limit. */
  lemma RoomNeeded(u: seq<nat>)
    requires |u| >= 2 && Between(u, 32) && Falling(u) && KraftSum(u, 32) == Pow2(32)
    ensures Between(Capped(u, 15), 15) && KraftSum(Capped(u, 15), 15) <= Pow2(15) + |u|
  {
    hide KraftSum, Pow2, Used, Words, Count;
    var c, v := Counts(u), Capped(u, 15);
    CountsOwn(u);
    WordsAll(u);
    KraftIsUsed(c, u, MAX_SUPPORTED);
    var c' := c[15 := c[15] + Words(c, 15, MAX_SUPPORTED)];
    FoldOverfull(c, c', |u|, 15);
    FoldCaps(c, u, 15);
    KraftIsUsed(c', v, 15);
    assert c'[15] == Count(v, 15) <= |v|;
  }

  lemma Cancel(p: nat, a: nat, b: nat)
    requires p > 0 && a * p == p * b
    ensures a == b
  {
    Distribute(p, a, 1);
    Distribute(p, b, 1);
    if a < b { Times(p, a + 1, b); }
    if b < a { Times(p, b + 1, a); }
  }

  lemma NoneLengthened(u: seq<nat>)
    requires Between(u, 32) && Falling(u) && KraftSum(u, 32) == Pow2(32) && u != [] && u[0] < 15
    ensures Between(u, 15) && KraftSum(u, 15) == Pow2(15)
  {
    hide KraftSum, Pow2;
    KraftScaled(u, 15, 17);
    Pow2Add(17, 15);
    Cancel(Pow2(17), KraftSum(u, 15), Pow2(15));
  }

  lemma RoomMadeBelow(u: seq<nat>, l: seq<nat>, cut: nat)
    requires |u| >= 2 && Between(u, 32) && Falling(u) && KraftSum(u, 32) == Pow2(32)
    requires Lengthened(Capped(u, 15), l, 15, cut) && cut > 1
    ensures Between(Capped(u, 15)[..cut], 15) && KraftSum(Capped(u, 15)[..cut], 15) - cut <= 2 * |u|
  {
    hide KraftSum, Pow2;
    var v, k := Capped(u, 15), cut - 1;
    assert v[k..] == u[k..];
    RoomNeeded(u);
    KraftSplit(v, 15, k);
    GapOfOne(u, k, v[k]);
    Snoc(v, k);
    KraftAppend(v[..k], 15, v[k]);
  }

  lemma OneMade(u: seq<nat>, l: seq<nat>)
    requires |u| >= 2 && Between(u, 32) && Falling(u) && KraftSum(u, 32) == Pow2(32)
    ensures !Lengthened(Capped(u, 15), l, 15, 1)
  {
    hide KraftSum, Pow2;
    var v := Capped(u, 15);
    if Lengthened(v, l, 15, 1) {
      assert v[0..] == u[0..] == u;
      NoneLengthened(u);
      assert false;
    }
  }

  /** Room made by the symbols that were lengthened. */
  lemma RoomMade(u: seq<nat>, l: seq<nat>, cut: nat)
    requires |u| >= 2 && Between(u, 32) && Falling(u) && KraftSum(u, 32) == Pow2(32)
    requires Lengthened(Capped(u, 15), l, 15, cut)
    ensures Between(Capped(u, 15)[..cut], 15) && KraftSum(Capped(u, 15)[..cut], 15) - cut <= 2 * |u|
  {
    hide KraftSum, Pow2;
    if cut == 0 {
      assert Capped(u, 15)[..0] == [];
      EmptyCost();
    } else if cut == 1 {
      OneMade(u, l);
      assert false;
    } else {
      RoomMadeBelow(u, l, cut);
    }
  }

  lemma CutInside(w: seq<nat>, u: seq<nat>, l: seq<nat>, cut: nat)
    requires |w| == |u| && Lengthened(Capped(u, 15), l, 15, cut)
    ensures |l| == |w| && Least(|w|, cut) == cut <= |w|
  {
  }

  lemma Bill(t: nat, a: int, n: nat)
    requires a <= 2 * n
    ensures t * a <= 2 * n * t
  {
  }

  /** The limited code costs at most |w|/270 bits for a symbol more than the
      best code without a limit. */
  lemma LimitedCost(w: seq<nat>, t: seq<Merge>, u: seq<nat>, l: seq<nat>, cut: nat)
    requires MinimalLengths(w, t, u) && Lengthened(Capped(u, 15), l, 15, cut)
    ensures |l| == |w| && RATE * Cost(w, l) <= RATE * Cost(w, u) + 2 * |w| * Prefix(w, |w|)
  {
    hide Cost, KraftSum, Share, Prefix, IsTree, Pow2, Lengthened, Least;
    var total, v := Prefix(w, |w|), Capped(u, 15);
    CutInside(w, u, l, cut);
    PrefixCost(w, u, l, cut, |w|, total);
    assert w[..|w|] == w && l[..|w|] == l && u[..|w|] == u;
    RoomMade(u, l, cut);
    Bill(total, KraftSum(v[..cut], 15) - cut, |w|);
  }
}
