/**
  The bit buffer and output cursor of the compressor. Bytes that do not fit are
  dropped, and the caller finds out afterwards by looking at the cursor; `full`
  is what would have been written into an unbounded buffer.
 */
module BitWriter {
  import opened Bits
  import opened Canonical
  import opened HuffmanTable

  /** Code lengths and reversed code words of one alphabet. */
  datatype Table = Table(sizes: seq<nat>, codes: seq<nat>)

  ghost predicate ValidTable(t: Table)
  {
    CodesFor(t.sizes, t.codes) && forall s :: 0 <= s < |t.sizes| ==> t.sizes[s] <= MAX_LEN
  }

  /** The cast to an 8-bit integer. */
  function ByteOf(v: nat): byte
  {
    Pow2Small();
    Low(v, 8)
  }

  lemma {:induction false} LowBits(v: nat, n: nat)
    ensures ToBits(Low(v, n), n) == ToBits(v, n)
  {
    if n == 0 {
    } else {
      LowBits(v / 2, n - 1);
      assert Low(v, n) / 2 == Low(v / 2, n - 1) && Low(v, n) % 2 == v % 2;
    }
  }

  lemma SplitByte(v: nat, n: nat)
    requires v < Pow2(n + 8)
    ensures ToBits(v, n + 8) == ToBits(ByteOf(v), 8) + ToBits(Shr(v, 8), n) && Shr(v, 8) < Pow2(n)
  {
    hide ToBits, Shr, Low, Pow2;
    ToBitsSplit(v, 8, n);
    LowBits(v, 8);
    assert 8 + n == n + 8;
    ShrBound(v, 8, n);
  }

  lemma RegisterAppend(before: seq<bool>, v: nat, a: nat, bits: nat, len: nat)
    requires v < Pow2(a) && bits < Pow2(len)
    ensures Or(v, Shl(bits, a)) < Pow2(a + len)
    ensures before + ToBits(Or(v, Shl(bits, a)), a + len) == before + ToBits(v, a) + ToBits(bits, len)
  {
    hide ToBits, Or, Shl, Pow2;
    OrShl(v, a, bits, len);
    assert before + (ToBits(v, a) + ToBits(bits, len)) == before + ToBits(v, a) + ToBits(bits, len);
  }

  lemma LongerField(full: nat, len: nat, bits: nat)
    requires bits == full % 8
    ensures (bits + len) % 8 == (full + len) % 8 && full / 8 <= (full + len) / 8
  {
  }

  lemma DrainByte(before: seq<byte>, v: nat, n: nat)
    requires v < Pow2(n + 8)
    ensures BytesBits(before + [ByteOf(v)]) + ToBits(Shr(v, 8), n) == BytesBits(before) + ToBits(v, n + 8)
  {
    hide ToBits, Shr, Pow2;
    SplitByte(v, n);
    BytesBitsConcat(before, [ByteOf(v)]);
    BytesBitsOne(ByteOf(v));
    var a, b, c := BytesBits(before), ToBits(ByteOf(v), 8), ToBits(Shr(v, 8), n);
    assert a + b + c == a + (b + c);
  }

  lemma BytesBitsLen(s: seq<byte>)
    ensures |BytesBits(s)| == 8 * |s|
  {
  }

  class BitWriter {
    var buf: array<byte>
    var start: nat
    var pos: nat
    var end: nat
    var bitBuffer: nat
    var bitsIn: nat
    ghost var full: seq<bool>

    ghost function Emitted(): seq<bool>
      requires start <= pos <= buf.Length
      reads this, buf
    {
      BytesBits(buf[start..pos]) + ToBits(bitBuffer, bitsIn)
    }

    /** Nothing is lost while the cursor is below the end, and the cursor is
        below the end exactly while everything written so far fits. */
    ghost predicate Valid()
      reads this, buf
    {
      && start <= pos <= buf.Length && start <= end <= buf.Length
      && bitsIn == |full| % 8 && bitBuffer < Pow2(bitsIn)
      && (pos < end ==> Emitted() == full)
      && (pos >= end ==> start + |full| / 8 >= end)
    }

    ghost predicate Fits()
      reads this
    {
      start + |full| / 8 < end
    }

    constructor (n: nat)
      ensures Valid() && fresh(buf) && bitsIn == 0 && bitBuffer == 0 && full == [] && start == pos == end == 0
      ensures buf.Length == n
    {
      buf := new byte[n](_ => 0);
      start, pos, end, bitBuffer, bitsIn, full := 0, 0, 0, 0, 0, [];
      new;
      assert BytesBits(buf[0..0]) == [];
    }

    /** What every writing operation does: append bits, and leave what is
        already written alone. */
    twostate predicate Appends(more: seq<bool>)
      reads this, buf
    {
      && Valid() && buf == old(buf) && start == old(start) && end == old(end) && pos >= old(pos)
      && full == old(full) + more
      && forall i :: 0 <= i < old(pos) ==> buf[i] == old(buf[i])
    }

    /** What remains true when an attempt to write a block is given up. */
    twostate predicate Keeps()
      reads this, buf
    {
      && buf == old(buf) && start == old(start) && end == old(end)
      && old(pos) <= pos && old(pos) <= buf.Length && forall i :: 0 <= i < old(pos) ==> buf[i] == old(buf[i])
    }

    lemma FitsIsRoom()
      requires Valid()
      ensures Fits() <==> pos < end
    {
    }

    /** Point the cursor at a place of `b`; pending bits are kept. */
    method Begin(b: array<byte>, first: nat, last: nat)
      requires first < last <= b.Length && bitsIn < 8 && bitBuffer < Pow2(bitsIn)
      modifies this
      ensures Valid() && buf == b && start == pos == first && end == last
      ensures bitBuffer == old(bitBuffer) && bitsIn == old(bitsIn) && full == ToBits(bitBuffer, bitsIn)
    {
      buf, start, pos, end := b, first, first, last;
      full := ToBits(bitBuffer, bitsIn);
      assert BytesBits(buf[first..first]) == [];
    }

    /** Go back to an earlier point of the same block. */
    method Rollback(savedPos: nat, savedBits: nat, savedIn: nat, ghost savedFull: seq<bool>)
      requires start <= savedPos < end <= buf.Length && savedIn < 8 && |savedFull| % 8 == savedIn
        && savedBits < Pow2(savedIn)
      requires BytesBits(buf[start..savedPos]) + ToBits(savedBits, savedIn) == savedFull
      modifies this
      ensures Valid() && buf == old(buf) && start == old(start) && end == old(end)
      ensures pos == savedPos && bitBuffer == savedBits && bitsIn == savedIn && full == savedFull
    {
      pos, bitBuffer, bitsIn, full := savedPos, savedBits, savedIn, savedFull;
    }

    /** As Valid, with more than a byte's worth of bits pending. */
    ghost predicate Draining()
      reads this, buf
    {
      && start <= pos <= buf.Length && start <= end <= buf.Length
      && bitsIn % 8 == |full| % 8 && bitBuffer < Pow2(bitsIn)
      && (pos < end ==> Emitted() == full)
      && (pos >= end ==> start + |full| / 8 >= end)
    }

    lemma DrainingBounds()
      requires Draining()
      ensures pos <= buf.Length
    {
    }

    lemma ValidBounds()
      requires Valid()
      ensures pos <= buf.Length
    {
    }

    lemma DrainedValid()
      requires Draining() && bitsIn < 8
      ensures Valid()
    {
    }

    method DrainOne()
      requires Draining() && bitsIn >= 8
      modifies this`pos, this`bitBuffer, this`bitsIn, buf
      ensures Draining() && bitsIn == old(bitsIn) - 8 && pos >= old(pos) && pos <= buf.Length
      ensures forall i :: 0 <= i < old(pos) ==> buf[i] == old(buf[i])
    {
      hide BytesBits, ToBits, Shr, ByteOf, Pow2;
      ghost var n := bitsIn - 8;
      SplitByte(bitBuffer, n);
      if pos < end {
        ghost var before := buf[start..pos];
        DrainByte(before, bitBuffer, n);
        buf[pos] := ByteOf(bitBuffer);
        pos := pos + 1;
        assert buf[start..pos] == before + [ByteOf(bitBuffer)];
        assert pos >= end ==> start + |full| / 8 >= end by { BytesBitsLen(before); }
      }
      bitBuffer := Shr(bitBuffer, 8);
      bitsIn := bitsIn - 8;
    }

    /** The inner loop of TDEFL_PUT_BITS: whole bytes leave the bit buffer. */
    method Drain()
      requires Draining()
      modifies this, buf
      ensures Appends([])
    {
      hide Draining;
      assert full + [] == full;
      DrainingBounds();
      while bitsIn >= 8
        invariant Draining()
        invariant buf == old(buf) && start == old(start) && end == old(end) && full == old(full)
        invariant old(pos) <= pos <= buf.Length
        invariant forall i :: 0 <= i < old(pos) ==> buf[i] == old(buf[i])
        decreases bitsIn
      {
        DrainOne();
      }
      DrainedValid();
    }

    /** The bits enter the bit buffer. */
    method Push(bits: nat, len: nat)
      requires Valid() && bits < Pow2(len) && len <= 16
      modifies this`bitBuffer, this`bitsIn, this`full
      ensures Draining() && full == old(full) + ToBits(bits, len)
    {
      hide BytesBits, ToBits, Or, Shl, Pow2;
      RegisterAppend(BytesBits(buf[start..pos]), bitBuffer, bitsIn, bits, len);
      LongerField(|full|, len, bitsIn);
      bitBuffer := Or(bitBuffer, Shl(bits, bitsIn));
      bitsIn := bitsIn + len;
      full := full + ToBits(bits, len);
    }

    /** TDEFL_PUT_BITS. */
    method PutBits(bits: nat, len: nat)
      requires Valid() && bits < Pow2(len) && len <= 16
      modifies this, buf
      ensures Appends(ToBits(bits, len))
    {
      hide Draining, Valid, ToBits, Pow2;
      ValidBounds();
      Push(bits, len);
      assert full + [] == full;
      Drain();
    }

    /** The code word of symbol `s`. */
    method PutSym(t: Table, s: nat)
      requires Valid() && ValidTable(t) && s < |t.sizes| && t.sizes[s] > 0
      modifies this, buf
      ensures Appends(CodeBits(t.sizes, s))
    {
      hide Valid;
      PutBits(t.codes[s], t.sizes[s]);
    }
  }
}
