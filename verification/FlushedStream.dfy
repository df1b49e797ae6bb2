/**
  A compressor's output is always the beginning of a valid stream: every flush
  takes the bits of one list of blocks to the bits of a longer one.
 */
module FlushedStream {
  import opened Bits
  import opened Canonical
  import opened Deflate
  import opened Blocks
  import opened Stream
  import opened BlockWriter

  /** Everything written so far: nothing at all before the first block. */
  ghost function Written(zlib: bool, bs: seq<Block>): seq<bool>
    requires ValidBlocks(bs)
  {
    if bs == [] then [] else OpenBits(zlib, bs)
  }

  /** The blocks after a flush. */
  ghost function Flushed(bs: seq<Block>, b: Body, flush: Flush): seq<Block>
  {
    bs + [Block(flush.Finish?, b)] + (if flush.SyncFlush? || flush.FullFlush? then [Block(false, Stored([]))] else [])
  }

  lemma ValidSnoc(bs: seq<Block>, b: Block)
    requires ValidBlocks(bs) && ValidBody(BlocksOut(bs), b.body)
    ensures ValidBlocks(bs + [b]) && BlocksOut(bs + [b]) == BodyOut(BlocksOut(bs), b.body)
    ensures forall base: nat :: BlocksBits(bs + [b], base)
              == BlocksBits(bs, base) + BlockBits(b, BlocksOut(bs), base + |BlocksBits(bs, base)|)
  {
    hide BlockBits, BodyOut, ValidBody;
    assert (bs + [b])[..|bs|] == bs;
  }

  lemma EmptyBody(out: seq<byte>)
    ensures ValidBody(out, Stored([])) && BodyOut(out, Stored([])) == out
  {
    assert out + [] == out;
  }

  lemma FlushedBlocks(bs: seq<Block>, b: Body, flush: Flush)
    requires ValidBlocks(bs) && AllOpen(bs) && ValidBody(BlocksOut(bs), b)
    ensures ValidBlocks(Flushed(bs, b, flush))
    ensures BlocksOut(Flushed(bs, b, flush)) == BodyOut(BlocksOut(bs), b)
    ensures flush.Finish? ==> Closes(Flushed(bs, b, flush))
    ensures !flush.Finish? ==> AllOpen(Flushed(bs, b, flush))
  {
    hide ValidBody, BodyOut, BlocksOut, ValidBlocks;
    var bs1 := bs + [Block(flush.Finish?, b)];
    ValidSnoc(bs, Block(flush.Finish?, b));
    assert bs1[..|bs|] == bs;
    if flush.SyncFlush? || flush.FullFlush? {
      EmptyBody(BlocksOut(bs1));
      ValidSnoc(bs1, Block(false, Stored([])));
    } else {
      assert bs1 + [] == bs1;
    }
  }

  // ------------------------------------------------- positions modulo a byte

  lemma PadSame(p: nat, q: nat)
    requires p % 8 == q % 8
    ensures Padding(p) == Padding(q)
  {
  }

  lemma BodySame(out: seq<byte>, b: Body, p: nat, q: nat)
    requires ValidBody(out, b) && p % 8 == q % 8
    ensures BodyBits(out, b, p) == BodyBits(out, b, q)
  {
    hide ValidHeader, AllCodable, HasCode, Reaches, FixedLit, FixedDist, Padding;
    PadSame(p + 2, q + 2);
  }

  lemma TailSame(zlib: bool, flush: Flush, adler: nat, p: nat, q: nat)
    requires p % 8 == q % 8
    ensures Tail(zlib, flush, adler, p) == Tail(zlib, flush, adler, q)
  {
    hide Padding, ToBits, ChecksumBits, StoredBits;
    PadSame(p, q);
    PadSame(p + 3, q + 3);
  }

  lemma SameBit(p: nat, q: nat, n: nat)
    requires p % 8 == q % 8
    ensures (p + n) % 8 == (q + n) % 8
  {
  }

  lemma FlushSame(first: bool, zlib: bool, flush: Flush, out: seq<byte>, b: Body, adler: nat, p: nat, q: nat)
    requires ValidBody(out, b) && p % 8 == q % 8
    ensures FlushBits(first, zlib, flush, out, b, adler, p) == FlushBits(first, zlib, flush, out, b, adler, q)
  {
    hide ValidBody, BodyBits, Tail, Prefix;
    var h := Prefix(first && zlib);
    SameBit(p, q, |h| + 1);
    BodySame(out, b, p + |h| + 1, q + |h| + 1);
    var n := 1 + |BodyBits(out, b, p + |h| + 1)|;
    SameBit(p, q, |h| + n);
    TailSame(zlib, flush, adler, p + |h| + n, q + |h| + n);
  }

  // ----------------------------------------------------------- the extension

  lemma OpenSnoc(zlib: bool, bs: seq<Block>, b: Block)
    requires ValidBlocks(bs) && ValidBody(BlocksOut(bs), b.body)
    ensures ValidBlocks(bs + [b])
    ensures OpenBits(zlib, bs + [b]) == OpenBits(zlib, bs) + BlockBits(b, BlocksOut(bs), |OpenBits(zlib, bs)|)
  {
    hide BlockBits, ValidBody, ValidBlocks, BlocksBits, BlocksOut, Prefix;
    ValidSnoc(bs, b);
    var px := Prefix(zlib);
    var w := BlocksBits(bs, |px|);
    assert |px + w| == |px| + |w|;
    assert px + (w + BlockBits(b, BlocksOut(bs), |px| + |w|)) == px + w + BlockBits(b, BlocksOut(bs), |px| + |w|);
  }

  /** The header, if it is due, and the block. */
  lemma WrittenSnoc(zlib: bool, bs: seq<Block>, b: Block)
    requires ValidBlocks(bs) && ValidBody(BlocksOut(bs), b.body)
    ensures ValidBlocks(bs + [b])
    ensures var w := Written(zlib, bs);
            var h := Prefix(bs == [] && zlib);
            OpenBits(zlib, bs + [b]) == w + (h + ([b.fin] + BodyBits(BlocksOut(bs), b.body, |w| + |h| + 1)))
  {
    hide BlockBits, ValidBody, BlocksOut, BodyBits, Prefix;
    var w, h := Written(zlib, bs), Prefix(bs == [] && zlib);
    OpenSnoc(zlib, bs, b);
    BodyIsBlock(b, BlocksOut(bs), |OpenBits(zlib, bs)|);
    PrefixLen(false);
    if bs == [] {
      assert OpenBits(zlib, bs) == Prefix(zlib) + [];
      if !zlib { assert Prefix(false) == []; }
      assert OpenBits(zlib, bs) == h;
      assert w + (h + ([b.fin] + BodyBits(BlocksOut(bs), b.body, |h| + 1)))
        == h + ([b.fin] + BodyBits(BlocksOut(bs), b.body, |h| + 1));
    } else {
      assert h == [];
      assert w == OpenBits(zlib, bs);
      assert h + ([b.fin] + BodyBits(BlocksOut(bs), b.body, |w| + 1))
        == [b.fin] + BodyBits(BlocksOut(bs), b.body, |w| + 1);
    }
  }

  /** What the stream must be after a flush. */
  ghost function StreamAfter(zlib: bool, bs: seq<Block>, flush: Flush, adler: nat): seq<bool>
    requires ValidBlocks(bs)
  {
    if flush.Finish? then FinishedBits(zlib, bs, adler) else OpenBits(zlib, bs)
  }

  lemma Regroup(w: seq<bool>, h: seq<bool>, body: seq<bool>, t: seq<bool>)
    ensures w + (h + (body + t)) == w + (h + body) + t
    ensures |w + (h + body)| == |w| + |h| + |body|
  {
  }

  /** An empty stored block ends at a byte boundary. */
  lemma SyncLen(zlib: bool, flush: Flush, adler: nat, pos: nat)
    requires flush.SyncFlush? || flush.FullFlush?
    ensures (pos + |Tail(zlib, flush, adler, pos)|) % 8 == 0
  {
    hide ToBits, Padding;
    PaddingLen(pos + 3);
  }

  /** The tail is the padding and checksum of a finished stream, or one more
      empty stored block. */
  lemma TailBits(zlib: bool, bs1: seq<Block>, flush: Flush, adler: nat)
    requires ValidBlocks(bs1)
    ensures var w := OpenBits(zlib, bs1);
            var t := Tail(zlib, flush, adler, |w|);
            && (flush.Finish? ==> w + t == FinishedBits(zlib, bs1, adler))
            && (flush.NoFlush? ==> w + t == w)
            && (flush.SyncFlush? || flush.FullFlush? ==>
                 var bs2 := bs1 + [Block(false, Stored([]))];
                 ValidBlocks(bs2) && w + t == OpenBits(zlib, bs2) && |w + t| % 8 == 0)
  {
    hide OpenBits, BlocksOut, ValidBlocks, ToBits, Padding, ChecksumBits, StoredBits;
    if flush.SyncFlush? || flush.FullFlush? {
      SyncLen(zlib, flush, adler, |OpenBits(zlib, bs1)|);
      EmptyBody(BlocksOut(bs1));
      OpenSnoc(zlib, bs1, Block(false, Stored([])));
    }
  }

  /** The bits of a flush take the stream to the one with its blocks. */
  lemma FlushExtends(zlib: bool, bs: seq<Block>, b: Body, flush: Flush, adler: nat)
    requires ValidBlocks(bs) && AllOpen(bs) && ValidBody(BlocksOut(bs), b)
    ensures ValidBlocks(Flushed(bs, b, flush))
    ensures var w := Written(zlib, bs);
            w + FlushBits(bs == [], zlib, flush, BlocksOut(bs), b, adler, |w|)
              == StreamAfter(zlib, Flushed(bs, b, flush), flush, adler)
    ensures flush.SyncFlush? || flush.FullFlush? ==> |StreamAfter(zlib, Flushed(bs, b, flush), flush, adler)| % 8 == 0
  {
    hide ValidBody, BodyBits, BlocksOut, OpenBits, Tail, Prefix, ValidBlocks, Written, FinishedBits, AllOpen;
    var out := BlocksOut(bs);
    var blk := Block(flush.Finish?, b);
    var w, h := Written(zlib, bs), Prefix(bs == [] && zlib);
    var body := [flush.Finish?] + BodyBits(out, b, |w| + |h| + 1);
    var t := Tail(zlib, flush, adler, |w| + |h| + |body|);
    FlushedBlocks(bs, b, flush);
    WrittenSnoc(zlib, bs, blk);
    Regroup(w, h, body, t);
    var bs1 := bs + [blk];
    TailBits(zlib, bs1, flush, adler);
    if flush.Finish? || flush.NoFlush? { assert Flushed(bs, b, flush) == bs1; }
  }
}
