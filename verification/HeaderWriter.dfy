/**
  The header of a dynamic block: two tables from the frequencies, their lengths
  packed, a third table for the packing alphabet, and all of it written out.
 */
module HeaderWriter {
  import opened Bits
  import opened Canonical
  import opened Deflate
  import opened Blocks
  import opened Stream
  import opened HuffmanTable
  import opened UsedSymbols
  import opened TableCost
  import opened Packing
  import opened BitWriter

  lemma {:induction false} FlatPrefix(list: seq<Packed>, k: nat)
    requires k <= |list|
    ensures |Flat(list[..k])| <= |Flat(list)| && Flat(list)[..|Flat(list[..k])|] == Flat(list[..k])
    decreases |list| - k
  {
    if k == |list| {
      assert list[..k] == list;
    } else {
      FlatPrefix(list, k + 1);
      assert list[..k + 1][..k] == list[..k];
      var a, b := Flat(list[..k]), Flat(list[..k + 1]);
      assert b[..|a|] == a;
      assert Flat(list)[..|b|][..|a|] == Flat(list)[..|a|];
    }
  }

  /** The entries of the k-th packed symbol. */
  lemma FlatAt(list: seq<Packed>, k: nat)
    requires k < |list|
    ensures var at, n := |Flat(list[..k])|, |Flat(list)|;
            && at < n && Flat(list)[at] == list[k].sym
            && |Flat(list[..k + 1])| == at + (if list[k].sym < 16 then 1 else 2) <= n
            && (list[k].sym >= 16 ==> Flat(list)[at + 1] == list[k].extra)
  {
    FlatPrefix(list, k + 1);
    assert list[..k + 1][..k] == list[..k];
    var b := Flat(list[..k + 1]);
    assert forall i :: 0 <= i < |b| ==> Flat(list)[i] == b[i];
  }

  lemma {:induction false} PackedPrefix(cl: seq<nat>, list: seq<Packed>, k: nat)
    requires k <= |list| && ValidPacked(cl, list)
    ensures ValidPacked(cl, list[..k])
    decreases |list| - k
  {
    if k == |list| {
      assert list[..k] == list;
    } else {
      PackedPrefix(cl, list, k + 1);
      assert list[..k + 1][..k] == list[..k];
    }
  }

  lemma PackedAt(cl: seq<nat>, list: seq<Packed>, k: nat)
    requires k < |list| && ValidPacked(cl, list)
    ensures ValidPacked(cl, list[..k]) && ValidPacked(cl, list[..k + 1])
    ensures list[k].sym <= 18 && HasCode(cl, list[k].sym)
    ensures list[k].sym >= 16 ==> list[k].extra < Pow2(REP_BITS[list[k].sym - 16])
    ensures PackedBits(cl, list[..k + 1]) == PackedBits(cl, list[..k]) + PackedOne(cl, list[k])
  {
    PackedPrefix(cl, list, k);
    PackedPrefix(cl, list, k + 1);
    assert list[..k + 1][..k] == list[..k];
  }

  /** Every packing symbol that is written was counted and so has a code. */
  lemma {:induction false} PackedHasCodes(cl: seq<nat>, list: seq<Packed>)
    requires PackedOk(list) && |cl| == 19 && forall s :: 0 <= s < 19 && Occurrences(list, s) > 0 ==> cl[s] > 0
    ensures ValidPacked(cl, list)
  {
    if list == [] {
    } else {
      var n := |list| - 1;
      PackedHasCodes(cl, list[..n]);
    }
  }

  /** One packed symbol and its extra bits. */
  method WriteOne(w: BitWriter, cl: Table, packed: seq<nat>, at: nat, ghost p: Packed) returns (next: nat)
    requires w.Valid() && ValidTable(cl) && |cl.sizes| == 19
    requires p.sym <= 18 && HasCode(cl.sizes, p.sym) && (p.sym >= 16 ==> p.extra < Pow2(REP_BITS[p.sym - 16]))
    requires at + (if p.sym < 16 then 1 else 2) <= |packed| && packed[at] == p.sym
    requires p.sym >= 16 ==> packed[at + 1] == p.extra
    modifies w, w.buf
    ensures next == at + (if p.sym < 16 then 1 else 2)
    ensures w.Appends(PackedOne(cl.sizes, p))
  {
    hide CodeBits;
    ghost var f0 := w.full;
    var code := packed[at];
    next := at + 1;
    w.PutSym(cl, code);
    if code >= 16 {
      w.PutBits(packed[next], REP_BITS[code - 16]);
      next := next + 1;
      Assoc(f0, CodeBits(cl.sizes, code), ToBits(p.extra, REP_BITS[code - 16]));
    }
  }

  lemma FlatStart(cl: seq<nat>, list: seq<Packed>)
    ensures Flat(list[..0]) == [] && ValidPacked(cl, list[..0]) && PackedBits(cl, list[..0]) == []
  {
  }

  /** Write the packed lengths with the code-length code. */
  method WritePacked(w: BitWriter, cl: Table, packed: seq<nat>, ghost list: seq<Packed>)
    requires w.Valid() && ValidTable(cl) && |cl.sizes| == 19 && ValidPacked(cl.sizes, list)
    requires packed == Flat(list)
    modifies w, w.buf
    ensures w.Appends(PackedBits(cl.sizes, list))
  {
    hide Flat, ValidPacked, PackedBits, PackedOne, CodeBits, BitWriter.Valid, BitWriter.Emitted, BytesBits, Pow2,
         CodesFor, Repeat, Unpack;
    ghost var f0 := w.full;
    var idx := 0;
    ghost var k := 0;
    FlatStart(cl.sizes, list);
    assert list[..|list|] == list;
    while idx < |packed|
      invariant 0 <= k <= |list| && idx == |Flat(list[..k])| <= |packed| && ValidPacked(cl.sizes, list[..k])
      invariant w.Appends(PackedBits(cl.sizes, list[..k]))
    {
      FlatAt(list, k);
      PackedAt(cl.sizes, list, k);
      idx := WriteOne(w, cl, packed, idx, list[k]);
      Assoc(f0, PackedBits(cl.sizes, list[..k]), PackedOne(cl.sizes, list[k]));
      k := k + 1;
    }
    if k < |list| { FlatAt(list, k); }
    assert list[..k] == list;
  }

  /** The lengths of both codes, packed. */
  method PackSizes(lens: seq<nat>) returns (p: Packer)
    requires |lens| <= MAX_LENGTHS && forall i :: 0 <= i < |lens| ==> lens[i] <= MAX_LEN
    ensures fresh(p) && fresh(p.packed) && fresh(p.counts) && p.Valid() && Unpack(p.list) == lens
    ensures p.list == PackedFor(lens)
  {
    hide PackedOk, Unpack, Flat, Occurrences, PackedFor, Greedy;
    p := new Packer();
    var i := 0;
    while i < |lens|
      invariant 0 <= i <= |lens| && fresh(p) && fresh(p.packed) && fresh(p.counts)
      invariant p.Valid() && p.Packs() && p.zCount < 138 && p.repCount < 6 && p.done == lens[..i]
    {
      p.Code(lens[i]);
      assert lens[..i + 1] == lens[..i] + [lens[i]];
      i := i + 1;
    }
    assert lens[..i] == lens;
    p.Finish();
  }

  /** Cut unused symbols off the end, but keep at least `least`. */
  method Trim(sizes: seq<nat>, most: nat, least: nat) returns (n: nat)
    requires 1 <= least <= most <= |sizes| && forall i :: most <= i < |sizes| ==> sizes[i] == 0
    ensures least <= n <= most && forall i :: n <= i < |sizes| ==> sizes[i] == 0
    ensures n > least ==> sizes[n - 1] != 0
  {
    n := most;
    while n > least
      invariant least <= n <= most && forall i :: n <= i < |sizes| ==> sizes[i] == 0
    {
      if sizes[n - 1] != 0 { break; }
      n := n - 1;
    }
  }

  /** How many lengths of the code-length code are stored. */
  method StoredLengths(cl: seq<nat>) returns (n: nat)
    requires |cl| == 19
    ensures 4 <= n <= 19 && forall k :: n <= k < 19 ==> cl[Zig(k)] == 0
    ensures n > 4 ==> cl[Zig(n - 1)] != 0
  {
    hide Zig;
    var last := 18;
    while last >= 0
      invariant -1 <= last <= 18 && forall k :: last < k < 19 ==> cl[Zig(k)] == 0
    {
      if cl[Zig(last)] != 0 { break; }
      last := last - 1;
    }
    n := if last + 1 > 4 then last + 1 else 4;
  }

  method WriteStored(w: BitWriter, cl: seq<nat>, n: nat)
    requires w.Valid() && |cl| == 19 && n <= 19 && forall i :: 0 <= i < 19 ==> cl[i] <= 7
    modifies w, w.buf
    ensures w.Appends(ClBits(ClStored(cl, n)))
  {
    hide Zig, ToBits;
    Pow2Small();
    ghost var f0, s := w.full, ClStored(cl, n);
    var i := 0;
    assert s[..0] == [] && ClBits(s[..0]) == [];
    while i < n
      invariant 0 <= i <= n
      invariant w.Appends(ClBits(s[..i]))
    {
      w.PutBits(cl[Zig(i)], 3);
      assert s[..i + 1][..i] == s[..i];
      Assoc(f0, ClBits(s[..i]), ToBits(s[i], 3));
      i := i + 1;
    }
    assert s[..i] == s;
  }

  /** tdefl_optimize_huffman_table for a dynamic block. */
  method BuildTable(counts: array<nat>, limit: nat) returns (t: Table)
    requires counts.Length <= 288 && 1 <= limit <= MAX_LEN && counts.Length <= Pow2(limit) && Total(counts[..]) < 65536
    ensures ValidTable(t) && GoodSizes(counts[..], t.sizes, limit)
    ensures limit == MAX_LEN ==> NearlyOptimal(counts[..], t.sizes)
  {
    hide Total, ValidCode, NearlyOptimal;
    var sizes := new nat[counts.Length](_ => 0);
    var codes := new nat[counts.Length](_ => 0);
    OptimizeTable(counts, limit, sizes, codes);
    t := Table(sizes[..], codes[..]);
  }

  lemma {:induction false} OccurrencesTotal(list: seq<Packed>, counts: seq<nat>)
    requires PackedOk(list) && |counts| == 19 && forall s :: 0 <= s < 19 ==> counts[s] == Occurrences(list, s)
    ensures Total(counts) == |list|
  {
    if list == [] {
      ZeroTotal(counts);
    } else {
      var n := |list| - 1;
      var s := list[n].sym;
      var before := counts[s := counts[s] - 1];
      OccurrencesTotal(list[..n], before);
      TotalUpdate(before, s, counts[s]);
      assert before[s := counts[s]] == counts;
    }
  }

  lemma {:induction false} FlatLonger(list: seq<Packed>)
    ensures |list| <= |Flat(list)|
  {
    if list == [] {
    } else {
      FlatLonger(list[..|list| - 1]);
    }
  }

  lemma PackerTotals(p: Packer)
    requires p.Valid()
    ensures p.counts.Length == 19 && Total(p.counts[..]) < 65536
    ensures forall s :: 0 <= s < 19 ==> p.counts[s] == Occurrences(p.list, s)
    ensures PackedOk(p.list) && p.num <= p.packed.Length && p.packed[..p.num] == Flat(p.list)
  {
    hide PackedOk, Flat, Occurrences, Unpack, Total;
    OccurrencesTotal(p.list, p.counts[..]);
    FlatLonger(p.list);
  }

  /** The fields of a valid header, put together. */
  lemma MakeHeader(lit: seq<nat>, dist: seq<nat>, n0: nat, n1: nat, hclen: nat, cl: seq<nat>, list: seq<Packed>,
          counts: seq<nat>)
    requires |lit| == LIT_CODES && |dist| == DIST_CODES && 257 <= n0 <= 286 && 1 <= n1 <= 30
    requires ValidCode(lit) && ValidCode(dist)
    requires forall i :: n0 <= i < |lit| ==> lit[i] == 0
    requires forall i :: n1 <= i < |dist| ==> dist[i] == 0
    requires |counts| == 19 && GoodSizes(counts, cl, 7) && PackedOk(list)
    requires forall s :: 0 <= s < 19 ==> counts[s] == Occurrences(list, s)
    requires 4 <= hclen <= 19 && forall k :: hclen <= k < 19 ==> cl[Zig(k)] == 0
    requires Unpack(list) == lit[..n0] + dist[..n1]
    ensures ValidHeader(Header(lit[..n0], dist[..n1], hclen, cl, list))
  {
    hide ValidCode, PackedOk, Occurrences, Unpack, Zig, ValidPacked;
    ValidTruncate(lit, n0);
    ValidTruncate(dist, n1);
    PackedHasCodes(cl, list);
  }

  lemma HeaderPacked(h: Header)
    requires ValidHeader(h)
    ensures |h.cl| == 19 && ValidPacked(h.cl, h.packed) && 4 <= h.hclen <= 19
  {
  }

  method WriteSizes(w: BitWriter, n0: nat, n1: nat, hclen: nat)
    requires w.Valid() && 257 <= n0 < 289 && 1 <= n1 < 33 && 4 <= hclen < 20
    modifies w, w.buf
    ensures w.Appends(ToBits(n0 - 257, 5) + (ToBits(n1 - 1, 5) + ToBits(hclen - 4, 4)))
  {
    hide ToBits, w.Valid;
    Pow2Small();
    ghost var f0 := w.full;
    w.PutBits(n0 - 257, 5);
    w.PutBits(n1 - 1, 5);
    w.PutBits(hclen - 4, 4);
    Assoc(f0 + ToBits(n0 - 257, 5), ToBits(n1 - 1, 5), ToBits(hclen - 4, 4));
    Assoc(f0, ToBits(n0 - 257, 5), ToBits(n1 - 1, 5) + ToBits(hclen - 4, 4));
  }

  method WriteFields(w: BitWriter, n0: nat, n1: nat, hclen: nat, cl: Table, packed: seq<nat>, ghost h: Header)
    requires w.Valid() && ValidHeader(h) && ValidTable(cl) && packed == Flat(h.packed)
    requires n0 == |h.lit| && n1 == |h.dist| && hclen == h.hclen && cl.sizes == h.cl
    modifies w, w.buf
    ensures w.Appends(HeaderBits(h))
  {
    hide ValidCode, PackedOk, Unpack, Flat, CodesFor, Zig, ToBits, ValidPacked, ClBits, PackedBits, ClStored,
         ValidTable;
    hide w.Valid;
    ghost var f0 := w.full;
    ghost var s0, s1, s2 := ToBits(n0 - 257, 5), ToBits(n1 - 1, 5), ToBits(hclen - 4, 4);
    ghost var s3, s4 := ClBits(ClStored(h.cl, hclen)), PackedBits(h.cl, h.packed);
    WriteSizes(w, n0, n1, hclen);
    WriteStored(w, cl.sizes, hclen);
    WritePacked(w, cl, packed, h.packed);
    assert f0 + (s0 + (s1 + s2)) + s3 + s4 == f0 + (s0 + (s1 + (s2 + (s3 + s4))));
  }

  /** Nothing in a header could be left out at the end of its three lists, and its
      lengths are packed into runs. */
  ghost predicate Tight(h: Header)
  {
    && (|h.lit| > 257 ==> h.lit[|h.lit| - 1] != 0) && (|h.dist| > 1 ==> h.dist[|h.dist| - 1] != 0)
    && |h.cl| == 19 && (4 < h.hclen <= 19 ==> h.cl[Zig(h.hclen - 1)] != 0)
    && h.packed == PackedFor(h.lit + h.dist)
  }

  lemma MakeTight(lit: seq<nat>, dist: seq<nat>, n0: nat, n1: nat, hclen: nat, cl: seq<nat>, list: seq<Packed>)
    requires 257 <= n0 <= |lit| && 1 <= n1 <= |dist| && |cl| == 19 && list == PackedFor(lit[..n0] + dist[..n1])
    requires (n0 > 257 ==> lit[n0 - 1] != 0) && (n1 > 1 ==> dist[n1 - 1] != 0)
    requires 4 <= hclen <= 19 && (hclen > 4 ==> cl[Zig(hclen - 1)] != 0)
    ensures Tight(Header(lit[..n0], dist[..n1], hclen, cl, list))
  {
    hide PackedFor, Zig;
  }

  /** The packed code lengths of a header, its third table, and all the rest of
      the header. */
  method WriteHeader(w: BitWriter, lit: Table, dist: Table) returns (ghost h: Header)
    requires w.Valid() && ValidTable(lit) && ValidTable(dist) && |lit.sizes| == LIT_CODES && |dist.sizes| == DIST_CODES
    requires ValidCode(lit.sizes) && ValidCode(dist.sizes)
    requires lit.sizes[286] == 0 && lit.sizes[287] == 0 && dist.sizes[30] == 0 && dist.sizes[31] == 0
    modifies w, w.buf
    ensures ValidHeader(h) && Tight(h) && h.lit <= lit.sizes && h.dist <= dist.sizes
    ensures forall i :: |h.lit| <= i < LIT_CODES ==> lit.sizes[i] == 0
    ensures forall i :: |h.dist| <= i < DIST_CODES ==> dist.sizes[i] == 0
    ensures w.Appends(HeaderBits(h))
  {
    hide ValidCode, PackedOk, Unpack, Flat, Occurrences, Total, CodesFor, Zig, ToBits, ValidHeader, ValidPacked,
         ClBits, PackedBits, ClStored, PackedFor, Tight, Packer.Valid;
    var n0 := Trim(lit.sizes, 286, 257);
    var n1 := Trim(dist.sizes, 30, 1);
    var lens := lit.sizes[..n0] + dist.sizes[..n1];
    var p := PackSizes(lens);
    PackerTotals(p);
    Pow2Small();
    var cl := BuildTable(p.counts, 7);
    var hclen := StoredLengths(cl.sizes);
    h := Header(lit.sizes[..n0], dist.sizes[..n1], hclen, cl.sizes, p.list);
    MakeHeader(lit.sizes, dist.sizes, n0, n1, hclen, cl.sizes, p.list, p.counts[..]);
    MakeTight(lit.sizes, dist.sizes, n0, n1, hclen, cl.sizes, p.list);
    HeaderPacked(h);
    var packed := p.packed[..p.num];
    WriteFields(w, n0, n1, hclen, cl, packed, h);
  }

  /** tdefl_start_dynamic_block. */
  method StartDynamicBlock(w: BitWriter, counts0: array<nat>, counts1: array<nat>)
    returns (lit: Table, dist: Table, ghost h: Header)
    requires w.Valid() && counts0.Length == LIT_CODES && counts1.Length == DIST_CODES && counts0 != counts1
    requires counts0[286] == 0 && counts0[287] == 0 && counts1[30] == 0 && counts1[31] == 0
    requires Total(counts0[..][END_OF_BLOCK := 1]) < 65536 && Total(counts1[..]) < 65536
    modifies w, w.buf, counts0
    ensures counts0[..] == old(counts0[..])[END_OF_BLOCK := 1]
    ensures ValidTable(lit) && ValidTable(dist) && GoodSizes(counts0[..], lit.sizes, MAX_LEN)
      && GoodSizes(counts1[..], dist.sizes, MAX_LEN)
    ensures NearlyOptimal(counts0[..], lit.sizes) && NearlyOptimal(counts1[..], dist.sizes)
    ensures ValidHeader(h) && Tight(h) && h.lit <= lit.sizes && h.dist <= dist.sizes
    ensures forall i :: |h.lit| <= i < LIT_CODES ==> lit.sizes[i] == 0
    ensures forall i :: |h.dist| <= i < DIST_CODES ==> dist.sizes[i] == 0
    ensures w.Appends(ToBits(2, 2) + HeaderBits(h))
  {
    hide NearlyOptimal, ValidHeader, ValidTable, HeaderBits, ToBits, Total, ValidCode, Tight;
    ghost var f0 := w.full;
    Pow2Small();
    counts0[END_OF_BLOCK] := 1;
    lit := BuildTable(counts0, MAX_LEN);
    dist := BuildTable(counts1, MAX_LEN);
    w.PutBits(2, 2);
    h := WriteHeader(w, lit, dist);
    Assoc(f0, ToBits(2, 2), HeaderBits(h));
  }
}
