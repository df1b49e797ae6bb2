/**
  Canonical Huffman codes (section 3.2.2 of RFC 1951): how a list of code
  lengths determines the code words, and why a list whose Kraft sum is one
  decodes every bit string in exactly one way.
 */
module Canonical {
  import opened Bits

  const MAX_LEN: nat := 15

  datatype Option<+T> = None | Some(value: T)

  /** How many entries of `lens` equal `l`. */
  function Count(lens: seq<nat>, l: nat): (r: nat)
    ensures r <= |lens|
  {
    if lens == [] then 0
    else Count(lens[..|lens| - 1], l) + (if lens[|lens| - 1] == l then 1 else 0)
  }

  /** The first code number of length `l` that is not in use; 2^l when the
      codes of length at most `l` fill the whole space. */
  function End(lens: seq<nat>, l: nat): nat
  {
    if l == 0 then 0 else 2 * End(lens, l - 1) + Count(lens, l)
  }

  function NextCode(lens: seq<nat>, l: nat): nat
  {
    if l == 0 then 0 else 2 * End(lens, l - 1)
  }

  function Code(lens: seq<nat>, s: nat): nat
    requires s < |lens|
  {
    NextCode(lens, lens[s]) + Count(lens[..s], lens[s])
  }

  /** The code word of symbol `s`, first bit first. */
  function CodeBits(lens: seq<nat>, s: nat): (r: seq<bool>)
    requires s < |lens|
    ensures |r| == lens[s]
  {
    MsbBits(Code(lens, s), lens[s])
  }

  /** Kraft sum exactly one. */
  ghost predicate Complete(lens: seq<nat>)
  {
    (forall i :: 0 <= i < |lens| ==> lens[i] <= MAX_LEN) && End(lens, MAX_LEN) == Pow2(MAX_LEN)
  }

  /** At most one symbol, with a code of any length. */
  ghost predicate Lone(lens: seq<nat>)
  {
    && (forall i :: 0 <= i < |lens| ==> lens[i] <= MAX_LEN)
    && (forall i, j :: 0 <= i < j < |lens| ==> lens[i] == 0 || lens[j] == 0)
  }

  ghost predicate ValidCode(lens: seq<nat>)
  {
    Complete(lens) || Lone(lens)
  }

  ghost predicate IsCode(lens: seq<nat>, s: nat, bits: seq<bool>)
  {
    s < |lens| && lens[s] > 0 && CodeBits(lens, s) <= bits
  }

  /** The symbol whose code word starts `bits`. */
  ghost function DecodeSym(lens: seq<nat>, bits: seq<bool>): (r: Option<nat>)
    ensures r.Some? ==> IsCode(lens, r.value, bits)
    ensures r.None? ==> forall s: nat :: !IsCode(lens, s, bits)
  {
    if exists s: nat :: IsCode(lens, s, bits) then
      var s: nat :| IsCode(lens, s, bits);
      Some(s)
    else None
  }

  // -------------------------------------------------------------- counting

  lemma CountStep(lens: seq<nat>, i: nat, l: nat)
    requires i < |lens|
    ensures Count(lens[..i + 1], l) == Count(lens[..i], l) + (if lens[i] == l then 1 else 0)
  {
    assert lens[..i + 1][..i] == lens[..i];
  }

  lemma {:induction false} CountPrefix(lens: seq<nat>, i: nat, l: nat)
    requires i <= |lens|
    ensures Count(lens[..i], l) <= Count(lens, l)
    decreases |lens| - i
  {
    if i == |lens| {
      assert lens[..i] == lens;
    } else {
      CountStep(lens, i, l);
      CountPrefix(lens, i + 1, l);
    }
  }

  /** Distinct symbols of the same length have distinct codes. */
  lemma CountStrict(lens: seq<nat>, s: nat, t: nat, l: nat)
    requires s < t <= |lens| && lens[s] == l
    ensures Count(lens[..s], l) < Count(lens[..t], l)
  {
    CountStep(lens, s, l);
    CountPrefix(lens[..t], s + 1, l);
    assert lens[..t][..s + 1] == lens[..s + 1];
  }

  /** The k-th symbol of a given length exists. */
  lemma {:induction false} KthSymbol(lens: seq<nat>, l: nat, k: nat) returns (s: nat)
    requires k < Count(lens, l)
    ensures s < |lens| && lens[s] == l && Count(lens[..s], l) == k
  {
    var n := |lens| - 1;
    if lens[n] == l && Count(lens[..n], l) == k {
      s := n;
    } else {
      s := KthSymbol(lens[..n], l, k);
      assert lens[..n][..s] == lens[..s];
    }
  }

  /** Unused symbols at the end do not change the code. */
  lemma {:induction false} CountTruncate(lens: seq<nat>, n: nat, l: nat)
    requires n <= |lens| && l > 0
    requires forall i :: n <= i < |lens| ==> lens[i] == 0
    ensures Count(lens[..n], l) == Count(lens, l)
  {
    if n == |lens| {
      assert lens[..n] == lens;
    } else {
      CountTruncate(lens[..|lens| - 1], n, l);
      assert lens[..|lens| - 1][..n] == lens[..n];
    }
  }

  lemma {:induction false} EndTruncate(lens: seq<nat>, n: nat, l: nat)
    requires n <= |lens|
    requires forall i :: n <= i < |lens| ==> lens[i] == 0
    ensures End(lens[..n], l) == End(lens, l)
  {
    if l == 0 {
    } else {
      EndTruncate(lens, n, l - 1);
      CountTruncate(lens, n, l);
    }
  }

  lemma CodeTruncate(lens: seq<nat>, n: nat, s: nat)
    requires s < n <= |lens|
    requires forall i :: n <= i < |lens| ==> lens[i] == 0
    ensures CodeBits(lens[..n], s) == CodeBits(lens, s)
  {
    if lens[s] > 0 { EndTruncate(lens, n, lens[s] - 1); }
    assert lens[..n][..s] == lens[..s];
  }

  lemma ValidTruncate(lens: seq<nat>, n: nat)
    requires n <= |lens| && ValidCode(lens)
    requires forall i :: n <= i < |lens| ==> lens[i] == 0
    ensures ValidCode(lens[..n])
  {
    EndTruncate(lens, n, MAX_LEN);
  }

  // ---------------------------------------------------------- code numbers

  lemma {:induction false} EndBoundBelow(lens: seq<nat>, l: nat, m: nat)
    requires l <= m && End(lens, m) <= Pow2(m)
    ensures End(lens, l) <= Pow2(l)
    decreases m - l
  {
    if l == m {
    } else {
      EndBoundBelow(lens, l, m - 1);
    }
  }

  lemma {:induction false} NoneOfLength(lens: seq<nat>, l: nat)
    requires forall i :: 0 <= i < |lens| ==> lens[i] != l
    ensures Count(lens, l) == 0
  {
    if lens == [] {
    } else {
      NoneOfLength(lens[..|lens| - 1], l);
    }
  }

  lemma {:induction false} LoneCount(lens: seq<nat>, s: nat)
    requires Lone(lens) && s < |lens| && lens[s] > 0
    ensures Count(lens, lens[s]) == 1
  {
    var n := |lens| - 1;
    if s == n {
      NoneOfLength(lens[..n], lens[s]);
    } else {
      LoneCount(lens[..n], s);
    }
  }

  /** The numbers in use by a single symbol: none, or one and its continuations. */
  lemma {:induction false} LoneEnd(lens: seq<nat>, l: nat)
    requires Lone(lens)
    ensures End(lens, l) == 0 || exists s :: 0 <= s < |lens| && 0 < lens[s] <= l && End(lens, l) == Pow2(l - lens[s])
  {
    if l == 0 {
    } else {
      LoneEnd(lens, l - 1);
      if s :| 0 <= s < |lens| && lens[s] == l {
        LoneCount(lens, s);
        assert Pow2(l - lens[s]) == 1;
      } else {
        NoneOfLength(lens, l);
      }
    }
  }

  /** Its code word is all zeros. */
  lemma LoneCode(lens: seq<nat>, s: nat)
    requires Lone(lens) && s < |lens| && lens[s] > 0
    ensures Code(lens, s) == 0
  {
    LoneEnd(lens, lens[s] - 1);
    NoneOfLength(lens[..s], lens[s]);
  }

  lemma EndBound(lens: seq<nat>, l: nat)
    requires ValidCode(lens) && l <= MAX_LEN
    ensures End(lens, l) <= Pow2(l)
  {
    hide End, Pow2;
    if Complete(lens) {
      EndBoundBelow(lens, l, MAX_LEN);
    } else {
      LoneEnd(lens, l);
      if s :| 0 <= s < |lens| && 0 < lens[s] <= l && End(lens, l) == Pow2(l - lens[s]) {
        Pow2Monotone(l - lens[s], l);
      } else {
        assert End(lens, l) == 0;
      }
    }
  }

  lemma ValidLens(lens: seq<nat>, s: nat)
    requires ValidCode(lens) && s < |lens|
    ensures lens[s] <= MAX_LEN
  {
  }

  lemma CodeBound(lens: seq<nat>, s: nat)
    requires ValidCode(lens) && s < |lens| && lens[s] > 0
    ensures Code(lens, s) < End(lens, lens[s]) <= Pow2(lens[s])
  {
    CountStrict(lens, s, |lens|, lens[s]);
    assert lens[..|lens|] == lens;
    EndBound(lens, lens[s]);
  }

  lemma {:induction false} MsbPrefix(w: nat, b: nat, a: nat)
    requires a <= b
    ensures MsbBits(w, b)[..a] == MsbBits(Shr(w, b - a), a)
  {
    if a == b {
      assert MsbBits(w, b)[..a] == MsbBits(w, b);
    } else {
      MsbPrefix(w / 2, b - 1, a);
      assert MsbBits(w, b)[..a] == MsbBits(w / 2, b - 1)[..a];
    }
  }

  lemma {:induction false} MsbInjective(v: nat, w: nat, n: nat)
    requires v < Pow2(n) && w < Pow2(n) && MsbBits(v, n) == MsbBits(w, n)
    ensures v == w
  {
    if n == 0 {
    } else {
      assert MsbBits(v, n)[..n - 1] == MsbBits(v / 2, n - 1);
      assert MsbBits(w, n)[..n - 1] == MsbBits(w / 2, n - 1);
      assert MsbBits(v, n)[n - 1] == MsbBits(w, n)[n - 1];
      MsbInjective(v / 2, w / 2, n - 1);
    }
  }

  /** Longer codes continue above all the shorter ones. */
  lemma {:induction false} LongerIsAbove(lens: seq<nat>, c: nat, l: nat, m: nat)
    requires l < m && c >= NextCode(lens, m)
    ensures Shr(c, m - l) >= End(lens, l)
    decreases m - l
  {
    if m == l + 1 {
      assert Shr(c, 1) == c / 2;
    } else {
      LongerIsAbove(lens, c / 2, l, m - 1);
    }
  }

  lemma CodeAtLeast(lens: seq<nat>, s: nat)
    requires s < |lens| && lens[s] > 0
    ensures Code(lens, s) >= NextCode(lens, lens[s])
  {
  }

  lemma SameLengthDiffers(lens: seq<nat>, s: nat, t: nat)
    requires ValidCode(lens) && s < t < |lens| && 0 < lens[s] == lens[t]
    ensures CodeBits(lens, s) != CodeBits(lens, t)
  {
    hide ValidCode, MsbBits, End, NextCode;
    CodeBound(lens, s);
    CodeBound(lens, t);
    CountStrict(lens, s, t, lens[s]);
    if CodeBits(lens, s) == CodeBits(lens, t) {
      MsbInjective(Code(lens, s), Code(lens, t), lens[s]);
      assert false;
    }
  }

  lemma LongerDiffers(lens: seq<nat>, s: nat, t: nat)
    requires ValidCode(lens) && s < |lens| && t < |lens| && 0 < lens[s] < lens[t]
    ensures !(CodeBits(lens, s) <= CodeBits(lens, t))
  {
    hide ValidCode, MsbBits, End, NextCode, Shr;
    var l, m, c := lens[s], lens[t], Code(lens, t);
    CodeBound(lens, s);
    CodeBound(lens, t);
    MsbPrefix(c, m, l);
    CodeAtLeast(lens, t);
    LongerIsAbove(lens, c, l, m);
    ShrBound(c, m - l, l);
    if CodeBits(lens, s) <= CodeBits(lens, t) {
      MsbInjective(Code(lens, s), Shr(c, m - l), l);
      assert false;
    }
  }

  lemma NotPrefix(lens: seq<nat>, s: nat, t: nat)
    requires ValidCode(lens) && s < |lens| && t < |lens|
    requires 0 < lens[s] <= lens[t] && s != t
    ensures !(CodeBits(lens, s) <= CodeBits(lens, t))
  {
    hide ValidCode, MsbBits, Code;
    if lens[s] < lens[t] {
      LongerDiffers(lens, s, t);
    } else if s < t {
      SameLengthDiffers(lens, s, t);
    } else {
      SameLengthDiffers(lens, t, s);
    }
  }

  /** No two code words of a valid code start the same bit string. */
  lemma PrefixFree(lens: seq<nat>, s: nat, t: nat, bits: seq<bool>)
    requires ValidCode(lens) && IsCode(lens, s, bits) && IsCode(lens, t, bits)
    ensures s == t
  {
    var a, b := CodeBits(lens, s), CodeBits(lens, t);
    if s != t {
      if lens[s] <= lens[t] {
        assert a == bits[..|a|] && b == bits[..|b|];
        assert a <= b;
        NotPrefix(lens, s, t);
      } else {
        assert a == bits[..|a|] && b == bits[..|b|];
        assert b <= a;
        NotPrefix(lens, t, s);
      }
    }
  }

  /** Decoding undoes encoding, whatever follows the code word. */
  lemma DecodeCode(lens: seq<nat>, s: nat, rest: seq<bool>)
    requires ValidCode(lens) && s < |lens| && lens[s] > 0
    ensures DecodeSym(lens, CodeBits(lens, s) + rest) == Some(s)
  {
    var bits := CodeBits(lens, s) + rest;
    assert IsCode(lens, s, bits);
    var r := DecodeSym(lens, bits);
    PrefixFree(lens, s, r.value, bits);
  }

  /** Only the bits of the code word matter. */
  lemma DecodeLocal(lens: seq<nat>, s: nat, bits: seq<bool>)
    requires ValidCode(lens) && IsCode(lens, s, bits)
    ensures DecodeSym(lens, bits) == Some(s)
  {
    DecodeCode(lens, s, bits[lens[s]..]);
    assert bits == CodeBits(lens, s) + bits[lens[s]..];
  }

  // ---------------------------------------------------------- completeness

  function MsbNat(b: seq<bool>): (v: nat)
    ensures v < Pow2(|b|)
  {
    if b == [] then 0 else 2 * MsbNat(b[..|b| - 1]) + (if b[|b| - 1] then 1 else 0)
  }

  lemma {:induction false} MsbBitsNat(b: seq<bool>)
    ensures MsbBits(MsbNat(b), |b|) == b
  {
    if b == [] {
    } else {
      MsbBitsNat(b[..|b| - 1]);
      assert MsbNat(b) / 2 == MsbNat(b[..|b| - 1]);
    }
  }

  lemma {:induction false} FindSymbol(lens: seq<nat>, w: seq<bool>, l: nat) returns (s: nat)
    requires l <= |w| && MsbNat(w[..l]) < End(lens, l)
    ensures IsCode(lens, s, w) && lens[s] <= l
    decreases l
  {
    var v := MsbNat(w[..l]);
    assert w[..l][..l - 1] == w[..l - 1];
    if MsbNat(w[..l - 1]) < End(lens, l - 1) {
      s := FindSymbol(lens, w, l - 1);
    } else {
      s := KthSymbol(lens, l, v - NextCode(lens, l));
      MsbBitsNat(w[..l]);
      assert CodeBits(lens, s) == w[..l];
    }
  }

  /** A complete code decodes every bit string that is long enough. */
  lemma CompleteDecodes(lens: seq<nat>, w: seq<bool>) returns (s: nat)
    requires Complete(lens) && |w| >= MAX_LEN
    ensures IsCode(lens, s, w) && DecodeSym(lens, w) == Some(s)
  {
    s := FindSymbol(lens, w, MAX_LEN);
    DecodeLocal(lens, s, w);
  }
}
