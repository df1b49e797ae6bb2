/**
  Run-length packing of the code lengths of a dynamic header.
 */
module Packing {
  import opened Bits
  import opened Canonical
  import opened Deflate
  import opened Blocks
  import opened Stream
  import opened HuffmanTable

  const MAX_LENGTHS: nat := 320

  /** How a packed list is laid out: a symbol, and behind 16, 17 and 18 the
      value of its extra bits. */
  ghost function Flat(list: seq<Packed>): seq<nat>
  {
    if list == [] then []
    else
      var p := list[|list| - 1];
      Flat(list[..|list| - 1]) + (if p.sym < 16 then [p.sym] else [p.sym, p.extra])
  }

  ghost predicate Packable(got: seq<nat>, p: Packed)
  {
    && p.sym <= 18
    && (p.sym >= 16 ==> p.extra < Pow2(REP_BITS[p.sym - 16]))
    && (p.sym == 16 ==> got != [])
  }

  ghost predicate PackedOk(list: seq<Packed>)
  {
    list == [] ||
    var n := |list| - 1;
    PackedOk(list[..n]) && Packable(Unpack(list[..n]), list[n])
  }

  ghost function Occurrences(list: seq<Packed>, s: nat): nat
  {
    if list == [] then 0
    else Occurrences(list[..|list| - 1], s) + (if list[|list| - 1].sym == s then 1 else 0)
  }

  lemma Snoc(list: seq<Packed>, p: Packed)
    ensures Unpack(list + [p]) == UnpackOne(Unpack(list), p)
    ensures Flat(list + [p]) == Flat(list) + (if p.sym < 16 then [p.sym] else [p.sym, p.extra])
    ensures PackedOk(list) && Packable(Unpack(list), p) ==> PackedOk(list + [p])
    ensures forall s :: Occurrences(list + [p], s) == Occurrences(list, s) + (if p.sym == s then 1 else 0)
  {
    hide UnpackOne, Packable;
    assert (list + [p])[..|list|] == list;
  }

  lemma Nothing(u: seq<nat>, v: nat)
    ensures u + (Repeat(0 as nat, 0) + Repeat(v, 0)) == u
  {
  }

  lemma RepeatLast(u: seq<nat>, n: nat)
    requires u != [] && n >= 3
    ensures UnpackOne(u, Packed(16, n - 3)) == u + (Repeat(0 as nat, 0) + Repeat(u[|u| - 1], n))
  {
  }

  lemma ZeroRun(u: seq<nat>, n: nat)
    requires 3 <= n <= 138
    ensures UnpackOne(u, if n <= 10 then Packed(17, n - 3) else Packed(18, n - 11)) == u + Repeat(0 as nat, n)
  {
  }

  lemma ZeroPackable(u: seq<nat>, n: nat)
    requires n <= 138
    ensures Packable(u, Packed(0, 0))
    ensures n >= 3 ==> Packable(u, if n <= 10 then Packed(17, n - 3) else Packed(18, n - 11))
  {
    Pow2Small();
  }

  lemma MoveOne(u: seq<nat>, v: nat, n: nat)
    requires 0 < n && v < 16
    ensures u + (Repeat(0 as nat, 0) + Repeat(v, n))
      == UnpackOne(u, Packed(v, 0)) + (Repeat(0 as nat, 0) + Repeat(v, n - 1))
  {
  }

  lemma MoveZero(u: seq<nat>, n: nat, v: nat)
    requires 0 < n
    ensures u + (Repeat(0 as nat, n) + Repeat(v, 0))
      == UnpackOne(u, Packed(0, 0)) + (Repeat(0 as nat, n - 1) + Repeat(v, 0))
  {
  }

  lemma Grow(u: seq<nat>, n: nat, v: nat, w: nat)
    ensures u + (Repeat(0 as nat, n) + Repeat(w, 0)) + [0] == u + (Repeat(0 as nat, n + 1) + Repeat(v, 0))
  {
  }

  lemma GrowRep(u: seq<nat>, v: nat, n: nat)
    ensures u + (Repeat(0 as nat, 0) + Repeat(v, n)) + [v] == u + (Repeat(0 as nat, 0) + Repeat(v, n + 1))
  {
  }

  lemma OneMoreSame(list: seq<Packed>, p: Packed, k: nat)
    ensures list + Repeat(p, 0) == list && list + Repeat(p, k) + [p] == list + Repeat(p, k + 1)
  {
  }

  // ------------------------------------------------------------ which symbols

  /** The symbols written so far, and the zeros and repetitions not written yet. */
  datatype Pending = Pending(list: seq<Packed>, zeros: nat, reps: nat)

  /** Three repetitions or more are one symbol, fewer are lengths of their own. */
  ghost function WithReps(list: seq<Packed>, v: nat, n: nat): seq<Packed>
  {
    list + (if n >= 3 then [Packed(16, n - 3)] else Repeat(Packed(v, 0), n))
  }

  ghost function WithZeros(list: seq<Packed>, n: nat): seq<Packed>
  {
    list + (if n >= 11 then [Packed(18, n - 11)] else if n >= 3 then [Packed(17, n - 3)] else Repeat(Packed(0, 0), n))
  }

  ghost function LastOf(lens: seq<nat>): nat
  {
    if lens == [] then 255 else lens[|lens| - 1]
  }

  /** One more length `v`, after `prev`: runs of zeros go up to 138, repetitions up to 6. */
  ghost function Then(p: Pending, prev: nat, v: nat): Pending
  {
    if v == 0 then
      var list := WithReps(p.list, prev, p.reps);
      if p.zeros == 137 then Pending(WithZeros(list, 138), 0, 0) else Pending(list, p.zeros + 1, 0)
    else
      var list := WithZeros(p.list, p.zeros);
      if v != prev then Pending(WithReps(list, prev, p.reps) + [Packed(v, 0)], 0, 0)
      else if p.reps == 5 then Pending(WithReps(list, prev, 6), 0, 0)
      else Pending(list, 0, p.reps + 1)
  }

  ghost function Greedy(lens: seq<nat>): Pending
  {
    if lens == [] then Pending([], 0, 0)
    else
      var n := |lens| - 1;
      Then(Greedy(lens[..n]), LastOf(lens[..n]), lens[n])
  }

  /** The packed list at the end. */
  ghost function PackedFor(lens: seq<nat>): seq<Packed>
  {
    var p := Greedy(lens);
    if p.reps > 0 then WithReps(p.list, LastOf(lens), p.reps) else WithZeros(p.list, p.zeros)
  }

  lemma GreedySnoc(lens: seq<nat>, v: nat)
    ensures Greedy(lens + [v]) == Then(Greedy(lens), LastOf(lens), v)
  {
    hide Then;
    assert (lens + [v])[..|lens|] == lens;
  }

  class Packer {
    const packed: array<nat>
    const counts: array<nat>
    var num: nat
    var zCount: nat
    var repCount: nat
    var prev: nat
    ghost var list: seq<Packed>
    ghost var done: seq<nat>

    ghost predicate Valid()
      reads this, packed, counts
    {
      && packed.Length == MAX_LENGTHS && counts.Length == 19 && packed != counts
      && PackedOk(list) && num + zCount + repCount <= |done| <= MAX_LENGTHS
      && num == |Flat(list)| && packed[..num] == Flat(list)
      && done == Unpack(list) + (Repeat(0, zCount) + Repeat(prev, repCount))
      && zCount <= 138 && repCount <= 6 && (zCount == 0 || repCount == 0)
      && prev == (if done == [] then 255 else done[|done| - 1])
      && (forall i :: 0 <= i < |done| ==> done[i] <= MAX_LEN)
      && (repCount > 0 ==> prev > 0 && Unpack(list) != [] && Unpack(list)[|Unpack(list)| - 1] == prev)
      && (forall s :: 0 <= s < 19 ==> counts[s] == Occurrences(list, s))
    }

    /** What is written and what waits is the packing of the lengths so far. */
    ghost predicate Packs()
      reads this
    {
      Pending(list, zCount, repCount) == Greedy(done)
    }

    constructor ()
      ensures Valid() && Packs() && fresh(packed) && fresh(counts) && done == []
    {
      packed := new nat[MAX_LENGTHS](_ => 0);
      counts := new nat[19](_ => 0);
      num, zCount, repCount, prev, list, done := 0, 0, 0, 255, [], [];
      new;
      assert packed[..0] == [];
    }

    /** Append one packed symbol and count it; the caller accounts for the run. */
    method Put(p: Packed)
      requires packed.Length == MAX_LENGTHS && counts.Length == 19 && packed != counts
      requires PackedOk(list) && Packable(Unpack(list), p)
      requires num + (if p.sym < 16 then 1 else 2) <= MAX_LENGTHS && num == |Flat(list)| && packed[..num] == Flat(list)
      requires forall s :: 0 <= s < 19 ==> counts[s] == Occurrences(list, s)
      modifies this`num, this`list, packed, counts
      ensures PackedOk(list) && list == old(list) + [p] && num == old(num) + (if p.sym < 16 then 1 else 2)
      ensures num == |Flat(list)| && packed[..num] == Flat(list) && Unpack(list) == UnpackOne(old(Unpack(list)), p)
      ensures forall s :: 0 <= s < 19 ==> counts[s] == Occurrences(list, s)
    {
      hide PackedOk, Unpack, UnpackOne, Flat, Occurrences;
      Snoc(list, p);
      counts[p.sym] := counts[p.sym] + 1;
      packed[num] := p.sym;
      if p.sym >= 16 {
        packed[num + 1] := p.extra;
      }
      num := num + (if p.sym < 16 then 1 else 2);
      list := list + [p];
    }

    method FewReps()
      requires Valid() && repCount < 3
      modifies this`num, this`list, this`repCount, packed, counts
      ensures Valid() && repCount == 0 && list == old(list) + Repeat(Packed(prev, 0), old(repCount))
    {
      hide PackedOk, Unpack, Flat, Occurrences, Repeat;
      OneMoreSame(list, Packed(prev, 0), 0);
      while repCount > 0
        invariant Valid() && repCount <= old(repCount) && zCount == old(zCount) && done == old(done)
          && prev == old(prev)
        invariant list == old(list) + Repeat(Packed(prev, 0), old(repCount) - repCount)
      {
        OneMoreSame(old(list), Packed(prev, 0), old(repCount) - repCount);
        MoveOne(Unpack(list), prev, repCount);
        Put(Packed(prev, 0));
        repCount := repCount - 1;
      }
    }

    /** TDEFL_RLE_PREV_CODE_SIZE: write the pending repetitions of `prev`. */
    method RlePrev()
      requires Valid()
      modifies this`num, this`list, this`repCount, packed, counts
      ensures Valid() && repCount == 0 && zCount == old(zCount)
      ensures list == WithReps(old(list), prev, old(repCount))
    {
      hide PackedOk, Unpack, Flat, Occurrences;
      if repCount >= 3 {
        RepeatLast(Unpack(list), repCount);
        Put(Packed(16, repCount - 3));
        repCount := 0;
        assert Repeat(0 as nat, 0) + Repeat(prev, 0) == [];
      } else {
        FewReps();
      }
    }

    /** A run of zeros as one symbol. */
    method ZeroLong()
      requires Valid() && zCount >= 3
      modifies this`num, this`list, this`zCount, packed, counts
      ensures Valid() && zCount == 0 && repCount == old(repCount)
      ensures list == WithZeros(old(list), old(zCount))
    {
      hide PackedOk, Unpack, Flat, Occurrences, Packable;
      ZeroPackable(Unpack(list), zCount);
      ZeroRun(Unpack(list), zCount);
      Put(if zCount <= 10 then Packed(17, zCount - 3) else Packed(18, zCount - 11));
      zCount := 0;
      assert Repeat(0 as nat, 0) + Repeat(prev, 0) == [];
    }

    method PutZero()
      requires Valid() && 0 < zCount < 3
      modifies this`num, this`list, this`zCount, packed, counts
      ensures Valid() && zCount == old(zCount) - 1 && list == old(list) + [Packed(0, 0)]
    {
      hide PackedOk, Unpack, Flat, Occurrences, Packable;
      MoveZero(Unpack(list), zCount, prev);
      ZeroPackable(Unpack(list), zCount);
      Put(Packed(0, 0));
      zCount := zCount - 1;
    }

    method FewZeros()
      requires Valid() && zCount < 3
      modifies this`num, this`list, this`zCount, packed, counts
      ensures Valid() && zCount == 0 && list == old(list) + Repeat(Packed(0, 0), old(zCount))
    {
      hide Valid, Repeat;
      OneMoreSame(list, Packed(0, 0), 0);
      while zCount > 0
        invariant Valid() && zCount <= old(zCount)
        invariant list == old(list) + Repeat(Packed(0, 0), old(zCount) - zCount)
      {
        OneMoreSame(old(list), Packed(0, 0), old(zCount) - zCount);
        PutZero();
      }
    }

    /** TDEFL_RLE_ZERO_CODE_SIZE: write the pending zeros. */
    method RleZero()
      requires Valid()
      modifies this`num, this`list, this`zCount, packed, counts
      ensures Valid() && zCount == 0 && repCount == old(repCount)
      ensures list == WithZeros(old(list), old(zCount))
    {
      hide Valid;
      if zCount >= 3 { ZeroLong(); } else { FewZeros(); }
    }

    lemma PrevIsLast()
      requires Valid()
      ensures prev == LastOf(done)
    {
    }

    method OneZero()
      requires Valid() && repCount == 0 && zCount < 138 && |done| < MAX_LENGTHS
      modifies this`zCount, this`prev, this`done
      ensures Valid() && repCount == 0 && zCount == old(zCount) + 1 && done == old(done) + [0]
    {
      hide PackedOk, Unpack, Flat, Occurrences;
      Grow(Unpack(list), zCount, 0, prev);
      zCount, prev, done := zCount + 1, 0, done + [0];
    }

    method NewSize(size: nat)
      requires Valid() && repCount == 0 && zCount == 0 && 0 < size <= MAX_LEN && |done| < MAX_LENGTHS
      modifies this, packed, counts
      ensures Valid() && repCount == 0 && zCount == 0 && done == old(done) + [size]
      ensures list == old(list) + [Packed(size, 0)]
    {
      hide PackedOk, Unpack, Flat, Occurrences;
      Nothing(Unpack(list), prev);
      Put(Packed(size, 0));
      prev, done := size, done + [size];
      Nothing(Unpack(list), prev);
    }

    method SameSize()
      requires Valid() && zCount == 0 && repCount < 6 && 0 < prev <= MAX_LEN && |done| < MAX_LENGTHS
      modifies this`repCount, this`done
      ensures Valid() && zCount == 0 && repCount == old(repCount) + 1 && done == old(done) + [prev]
    {
      hide PackedOk, Unpack, Flat, Occurrences;
      if repCount == 0 { Nothing(Unpack(list), prev); }
      GrowRep(Unpack(list), prev, repCount);
      repCount, done := repCount + 1, done + [prev];
    }

    /** One round of the packing loop. `prev` is updated as soon as the pending
        run of the old value is out. */
    method Code(size: nat)
      requires Valid() && zCount < 138 && repCount < 6 && size <= MAX_LEN && |done| < MAX_LENGTHS
      modifies this, packed, counts
      ensures Valid() && zCount < 138 && repCount < 6 && done == old(done) + [size]
      ensures old(Packs()) ==> Packs()
    {
      hide Valid, WithReps, WithZeros, Greedy;
      GreedySnoc(done, size);
      PrevIsLast();
      if size == 0 {
        RlePrev();
        OneZero();
        if zCount == 138 { RleZero(); }
      } else {
        RleZero();
        if size != prev {
          RlePrev();
          NewSize(size);
        } else {
          SameSize();
          if repCount == 6 { RlePrev(); }
        }
      }
    }

    /** What is left at the end. */
    method Finish()
      requires Valid()
      modifies this`num, this`list, this`zCount, this`repCount, packed, counts
      ensures Valid() && Unpack(list) == done && done == old(done)
      ensures old(Packs()) ==> list == PackedFor(done)
    {
      if repCount > 0 { RlePrev(); } else { RleZero(); }
      Nothing(Unpack(list), prev);
    }
  }
}
