/**
  How finished blocks reach the caller: straight into its buffer when a whole
  block surely fits there, through the callback, or through the internal buffer,
  from which the rest is handed over by later calls.
 */
module OutputBuffer {
  import opened Bits
  import opened Canonical
  import opened BitWriter
  import opened BlockWriter
  import opened BlockSize
  import opened Emitter

  method CopyArray(src: array<byte>, from: nat, dst: array<byte>, at: nat, m: nat)
    requires dst != src && from + m <= src.Length && at + m <= dst.Length
    modifies dst
    ensures dst[..at + m] == old(dst[..at]) + src[from..from + m]
  {
    var i := 0;
    while i < m
      invariant 0 <= i <= m && dst[..at + i] == old(dst[..at]) + src[from..from + i]
    {
      dst[at + i] := src[from + i];
      assert dst[..at + i + 1] == dst[..at + i] + [src[from + i]];
      i := i + 1;
    }
  }

  class Output {
    const buf: array<byte>
    const w: BitWriter
    const callback: bool
    var dst: array<byte>
    var ofs: nat
    var flushOfs: nat
    var flushLeft: nat
    /** The bytes of all finished blocks. */
    ghost var sent: seq<byte>
    /** The bytes handed over, in all calls so far and before the current one. */
    ghost var delivered: seq<byte>
    ghost var earlier: seq<byte>

    ghost predicate Bounds()
      reads this, w
    {
      && buf.Length == OUT_BUF_SIZE && dst != buf && ofs <= dst.Length && flushOfs + flushLeft <= OUT_BUF_SIZE
      && w.bitsIn < 8 && w.bitBuffer < Pow2(w.bitsIn)
      && (callback ==> flushLeft == 0)
    }

    /** Every byte of every block is either delivered or pending, once and in order. */
    ghost predicate Valid()
      reads this, w, buf, dst
    {
      && Bounds()
      && sent == delivered + buf[flushOfs..flushOfs + flushLeft]
      && (if callback then ofs == 0 else delivered == earlier + dst[..ofs])
    }

    constructor (callback: bool)
      ensures Valid() && this.callback == callback && flushLeft == 0 && sent == [] && delivered == [] && earlier == []
        && ofs == 0
      ensures w.bitsIn == 0 && w.bitBuffer == 0 && w.full == []
      ensures fresh(buf) && fresh(w) && fresh(w.buf) && fresh(dst) && dst != buf
    {
      this.callback := callback;
      buf := new byte[OUT_BUF_SIZE](_ => 0);
      dst := new byte[0];
      w := new BitWriter(0);
      ofs, flushOfs, flushLeft, sent, delivered, earlier := 0, 0, 0, [], [], [];
      new;
      Pow2Small();
    }

    /** A call of tdefl_compress begins. */
    method NewCall(d: array<byte>)
      requires Valid() && d != buf
      modifies this`dst, this`ofs, this`earlier
      ensures Valid() && dst == d && ofs == 0 && earlier == delivered
    {
      dst, ofs, earlier := d, 0, delivered;
      assert delivered == earlier + dst[..0];
    }

    /** While a block is written. */
    ghost predicate Writing()
      reads this, w, buf, dst, w.buf
    {
      && Bounds() && flushLeft == 0 && flushOfs == 0 && sent == delivered
      && (if callback then ofs == 0 else delivered == earlier + dst[..ofs])
      && w.Valid() && w.end == w.start + OUT_ROOM && w.start + OUT_BUF_SIZE <= w.buf.Length
      && (if w.buf == buf then w.start == 0 else w.buf == dst && w.start == ofs && !callback)
    }

    /** A new block may only start when nothing is pending. */
    method BeginBlock()
      requires Valid() && flushLeft == 0
      modifies this`flushOfs, w
      ensures Writing() && w.pos == w.start && w.full == old(ToBits(w.bitBuffer, w.bitsIn))
    {
      hide ToBits, Pow2, BytesBits;
      if !callback && dst.Length - ofs >= OUT_BUF_SIZE {
        w.Begin(dst, ofs, ofs + OUT_ROOM);
      } else {
        w.Begin(buf, 0, OUT_ROOM);
      }
      flushOfs := 0;
    }

    /** The block stands in the caller's buffer already. */
    method DeliverDirect(n: nat)
      requires Bounds() && flushLeft == 0 && flushOfs == 0 && delivered == earlier + dst[..ofs] && !callback
        && ofs + n <= dst.Length
      modifies this`ofs, this`delivered
      ensures Bounds() && delivered == earlier + dst[..ofs] && ofs == old(ofs) + n
      ensures delivered + buf[0..0] == old(delivered) + dst[old(ofs)..ofs]
    {
      hide Pow2;
      assert dst[..ofs + n] == dst[..ofs] + dst[ofs..ofs + n];
      delivered := delivered + dst[ofs..ofs + n];
      ofs := ofs + n;
      assert buf[0..0] == [];
    }

    /** memcpy to the caller's buffer. */
    method CopyBytes(from: nat, m: nat)
      requires dst != buf && from + m <= buf.Length && ofs + m <= dst.Length && delivered == earlier + dst[..ofs]
      modifies this`ofs, this`delivered, dst
      ensures ofs == old(ofs) + m && delivered == old(delivered) + buf[from..from + m] == earlier + dst[..ofs]
    {
      CopyArray(buf, from, dst, ofs, m);
      ofs := ofs + m;
      delivered := delivered + buf[from..from + m];
    }

    /** From the internal buffer, as far as there is room. */
    method DeliverPart(n: nat)
      requires dst != buf && ofs <= dst.Length && n <= buf.Length && flushLeft == 0 && flushOfs == 0
      requires delivered == earlier + dst[..ofs]
      modifies this`ofs, this`flushOfs, this`flushLeft, this`delivered, dst
      ensures ofs <= dst.Length && flushOfs + flushLeft <= n && delivered == earlier + dst[..ofs]
      ensures delivered + buf[flushOfs..flushOfs + flushLeft] == old(delivered) + buf[..n]
      ensures flushLeft > 0 ==> ofs == dst.Length
      ensures old(delivered) <= delivered
    {
      var m := if n < dst.Length - ofs then n else dst.Length - ofs;
      ghost var d0 := delivered;
      CopyBytes(0, m);
      if n - m != 0 {
        flushOfs, flushLeft := m, n - m;
      }
      assert buf[0..m] + buf[m..n] == buf[..n];
      Assoc(d0, buf[0..m], buf[flushOfs..flushOfs + flushLeft]);
    }

    method Deliver(n: nat)
      requires Bounds() && flushLeft == 0 && flushOfs == 0 && 0 < n <= OUT_ROOM
      requires if callback then ofs == 0 else delivered == earlier + dst[..ofs]
      requires if w.buf == buf then w.start == 0
        else w.buf == dst && w.start == ofs && !callback && ofs + n <= dst.Length
      modifies this`ofs, this`flushOfs, this`flushLeft, this`delivered, dst
      ensures Bounds() && (if callback then ofs == 0 else delivered == earlier + dst[..ofs])
      ensures delivered + buf[flushOfs..flushOfs + flushLeft]
        == old(delivered) + old(if w.buf == buf then buf[..n] else dst[ofs..ofs + n])
      ensures flushLeft > 0 ==> ofs == dst.Length
      ensures old(delivered) <= delivered
    {
      hide Pow2;
      if callback {
        delivered := delivered + buf[..n];
        assert buf[0..0] == [];
      } else if w.buf == buf {
        DeliverPart(n);
      } else {
        DeliverDirect(n);
      }
    }

    /** The end of tdefl_flush_block: the bytes of the block go to the caller as
        far as there is room. */
    method EndBlock()
      requires Writing() && w.Fits()
      modifies this`ofs, this`flushOfs, this`flushLeft, this`sent, this`delivered, dst
      ensures Valid()
      ensures BytesBits(sent) + ToBits(w.bitBuffer, w.bitsIn) == BytesBits(old(sent)) + w.full
      ensures flushLeft > 0 ==> ofs == dst.Length
      ensures old(sent) <= sent && old(delivered) <= delivered
    {
      hide ToBits, Pow2, BytesBits, w.Valid;
      WriterAt(w);
      var n := w.pos - w.start;
      ghost var new_ := w.buf[w.start..w.pos];
      BytesBitsConcat(sent, new_);
      Assoc(BytesBits(sent), BytesBits(new_), ToBits(w.bitBuffer, w.bitsIn));
      sent := sent + new_;
      if n != 0 {
        Deliver(n);
      } else {
        assert new_ == [];
      }
    }

    /** How many pending bytes the caller has room for. */
    function Due(): (n: nat)
      requires ofs <= dst.Length
      reads this
    {
      if callback then 0 else if dst.Length - ofs < flushLeft then dst.Length - ofs else flushLeft
    }

    lemma PendingSplit(n: nat, s: seq<byte>)
      requires n <= flushLeft && flushOfs + flushLeft <= buf.Length
      requires sent == s + buf[flushOfs..flushOfs + flushLeft]
      ensures sent == s + buf[flushOfs..flushOfs + n] + buf[flushOfs + n..flushOfs + flushLeft]
    {
      assert buf[flushOfs..flushOfs + flushLeft] == buf[flushOfs..flushOfs + n]
        + buf[flushOfs + n..flushOfs + flushLeft];
    }

    method HandOver(n: nat)
      requires dst != buf && n <= flushLeft && flushOfs + flushLeft <= buf.Length && ofs + n <= dst.Length
      requires delivered == earlier + dst[..ofs] && sent == delivered + buf[flushOfs..flushOfs + flushLeft]
      modifies this`ofs, this`flushOfs, this`flushLeft, this`delivered, dst
      ensures ofs == old(ofs) + n && flushOfs == old(flushOfs) + n && flushLeft == old(flushLeft) - n
      ensures delivered == old(delivered) + buf[old(flushOfs)..flushOfs] == earlier + dst[..ofs]
      ensures sent == delivered + buf[flushOfs..flushOfs + flushLeft]
    {
      PendingSplit(n, delivered);
      CopyBytes(flushOfs, n);
      flushOfs := flushOfs + n;
      flushLeft := flushLeft - n;
    }

    /** tdefl_flush_output_buffer: the next bytes that are due, as many as there is
        room for. */
    method FlushOutput()
      requires Valid()
      modifies this`ofs, this`flushOfs, this`flushLeft, this`delivered, dst
      ensures Valid() && ofs == old(ofs + Due()) && flushLeft == old(flushLeft - Due())
      ensures delivered == old(delivered) + old(buf[flushOfs..flushOfs + Due()])
    {
      hide Pow2;
      var n := Due();
      if !callback {
        HandOver(n);
      } else {
        assert buf[flushOfs..flushOfs] == [];
      }
    }
  }
}
