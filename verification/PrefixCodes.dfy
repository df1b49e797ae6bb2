/**
  Prefix codes as sets of words, and the inequality that ties them to their
  lengths: so the calculated lengths are best among all prefix codes.
 */
module PrefixCodes {
  import opened Bits
  import opened MergeTree
  import opened OptimalCode
  import opened MinRedundancy

  /** No word begins another one. */
  ghost predicate PrefixFree(words: seq<seq<bool>>)
  {
    forall i, j :: 0 <= i < |words| && 0 <= j < |words| && i != j ==> !(words[i] <= words[j])
  }

  ghost function Lengths(words: seq<seq<bool>>): (r: seq<nat>)
    ensures |r| == |words| && forall i :: 0 <= i < |r| ==> r[i] == |words[i]|
  {
    seq(|words|, i requires 0 <= i < |words| => |words[i]|)
  }

  ghost predicate NonEmpty(words: seq<seq<bool>>)
  {
    forall i :: 0 <= i < |words| ==> words[i] != []
  }

  /** What follows `b` in the words that begin with it. */
  ghost function Behind(words: seq<seq<bool>>, b: bool): seq<seq<bool>>
    requires NonEmpty(words)
  {
    if words == [] then []
    else (if words[0][0] == b then [words[0][1..]] else []) + Behind(words[1..], b)
  }

  /** Where a word of `Behind` comes from. */
  lemma {:induction false} BehindFrom(words: seq<seq<bool>>, b: bool, k: nat) returns (i: nat)
    requires NonEmpty(words) && k < |Behind(words, b)|
    ensures i < |words| && words[i] == [b] + Behind(words, b)[k]
  {
    if words[0][0] == b && k == 0 {
      i := 0;
    } else {
      var h := if words[0][0] == b then 1 else 0;
      i := BehindFrom(words[1..], b, k - h);
      i := i + 1;
    }
  }

  lemma Longer(b: bool, x: seq<bool>, y: seq<bool>)
    ensures x <= y ==> [b] + x <= [b] + y
  {
  }

  lemma BehindApart(words: seq<seq<bool>>, b: bool, k: nat)
    requires words != [] && NonEmpty(words) && PrefixFree(words) && words[0][0] == b && k < |Behind(words[1..], b)|
    ensures !(words[0][1..] <= Behind(words[1..], b)[k]) && !(Behind(words[1..], b)[k] <= words[0][1..])
  {
    var x, y := words[0][1..], Behind(words[1..], b)[k];
    var i := BehindFrom(words[1..], b, k);
    hide Behind;
    assert !(words[0] <= words[i + 1]) && !(words[i + 1] <= words[0]);
    Longer(b, x, y);
    Longer(b, y, x);
    assert words[0] == [b] + x;
  }

  lemma {:induction false} BehindFree(words: seq<seq<bool>>, b: bool)
    requires NonEmpty(words) && PrefixFree(words)
    ensures PrefixFree(Behind(words, b))
  {
    if words == [] {
    } else {
      var rest := words[1..];
      BehindFree(rest, b);
      var t := Behind(rest, b);
      if words[0][0] == b {
        var x := words[0][1..];
        forall k | 0 <= k < |t| ensures !(x <= t[k]) && !(t[k] <= x) {
          BehindApart(words, b, k);
        }
        assert Behind(words, b) == [x] + t;
      } else {
        assert Behind(words, b) == t;
      }
    }
  }

  lemma {:induction false} BehindShort(words: seq<seq<bool>>, b: bool, d: nat)
    requires NonEmpty(words) && d > 0 && forall i :: 0 <= i < |words| ==> |words[i]| <= d
    ensures forall k :: 0 <= k < |Behind(words, b)| ==> |Behind(words, b)[k]| <= d - 1
  {
    if words == [] {
    } else {
      BehindShort(words[1..], b, d);
    }
  }

  lemma NoWord(d: nat)
    ensures KraftSum([], d) == 0
  {
  }

  lemma BehindCons(words: seq<seq<bool>>)
    requires NonEmpty(words) && words != []
    ensures Behind(words, words[0][0]) == [words[0][1..]] + Behind(words[1..], words[0][0])
    ensures Behind(words, !words[0][0]) == Behind(words[1..], !words[0][0])
  {
    var t := Behind(words[1..], !words[0][0]);
    assert [] + t == t;
  }

  lemma LengthsCons(x: seq<bool>, words: seq<seq<bool>>)
    ensures Lengths([x] + words) == [|x|] + Lengths(words)
  {
  }

  lemma NoneBehind()
    ensures Lengths([]) == [] && Behind([], false) == [] && Behind([], true) == []
  {
  }

  lemma {:induction false} KraftHalves(words: seq<seq<bool>>, d: nat)
    requires NonEmpty(words) && d > 0 && forall i :: 0 <= i < |words| ==> |words[i]| <= d
    requires forall b: bool, k :: 0 <= k < |Behind(words, b)| ==> |Behind(words, b)[k]| <= d - 1
    ensures KraftSum(Lengths(words), d)
         == KraftSum(Lengths(Behind(words, false)), d - 1) + KraftSum(Lengths(Behind(words, true)), d - 1)
  {
    hide Pow2, KraftSum, Lengths, Behind;
    if words == [] {
      NoWord(d);
      NoWord(d - 1);
      NoneBehind();
    } else {
      var x, rest := words[0][1..], words[1..];
      var t := Behind(rest, words[0][0]);
      BehindShort(rest, false, d);
      BehindShort(rest, true, d);
      KraftHalves(rest, d);
      BehindCons(words);
      assert words == [words[0]] + rest;
      LengthsCons(words[0], rest);
      LengthsCons(x, t);
      KraftCons(|words[0]|, Lengths(rest), d);
      KraftCons(|x|, Lengths(t), d - 1);
    }
  }

  lemma OneWord(d: nat)
    ensures KraftSum([0], d) == Pow2(d)
  {
    assert [0][1..] == [];
  }

  lemma HalfOf(d: nat)
    requires d > 0
    ensures Pow2(d) == Pow2(d - 1) + Pow2(d - 1)
  {
  }

  /** Kraft's inequality. */
  lemma {:induction false} Kraft(words: seq<seq<bool>>, d: nat)
    requires PrefixFree(words) && forall i :: 0 <= i < |words| ==> |words[i]| <= d
    ensures Fits(Lengths(words), d)
    decreases d
  {
    hide KraftSum, Pow2, Behind;
    if i :| 0 <= i < |words| && words[i] == [] {
      var j := if i == 0 then |words| - 1 else 0;
      assert words[i] <= words[j];
      assert words == [[]];
      OneWord(d);
      assert Lengths(words) == [0];
    } else if words == [] {
      NoWord(d);
      assert Lengths(words) == [];
    } else {
      assert |words[0]| > 0;
      BehindShort(words, false, d);
      BehindShort(words, true, d);
      BehindFree(words, false);
      BehindFree(words, true);
      KraftHalves(words, d);
      Kraft(Behind(words, false), d - 1);
      Kraft(Behind(words, true), d - 1);
      HalfOf(d);
    }
  }

  lemma {:induction false} Longest(words: seq<seq<bool>>) returns (d: nat)
    ensures forall i :: 0 <= i < |words| ==> |words[i]| <= d
  {
    d := 0;
    for k := 0 to |words|
      invariant forall i :: 0 <= i < k ==> |words[i]| <= d
    {
      if |words[k]| > d { d := |words[k]|; }
    }
  }

  lemma CalculatedLen(w: seq<nat>, t: seq<Merge>, l: seq<nat>)
    requires MinimalLengths(w, t, l)
    ensures |l| == |w|
  {
  }

  /** No prefix code gives the weights a smaller total than the lengths the
      in-place pass calculates. */
  lemma BestPrefixCode(w: seq<nat>, t: seq<Merge>, l: seq<nat>, words: seq<seq<bool>>)
    requires MinimalLengths(w, t, l) && |words| == |w| && PrefixFree(words)
    ensures |l| == |w| && Cost(w, l) <= Cost(w, Lengths(words))
  {
    hide MinimalLengths, Cost;
    var d := Longest(words);
    Kraft(words, d);
    CalculatedLen(w, t, l);
    CalculatedLengthsAreOptimal(w, t, l, Lengths(words), d);
  }
}
