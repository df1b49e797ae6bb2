/**
  What a full flush is for: the blocks behind it never refer to anything in front of
  it, so what follows can be inflated without what came before.
 */
module FreshStart {
  import opened Bits
  import opened Deflate
  import opened Blocks
  import opened Stream
  import opened FlushedStream
  import opened BitWriter
  import opened Parsing
  import opened Adler
  import C = Compressor
  import RoundTrip

  // ---------------------------------------------------- bytes in front do not matter

  lemma {:induction false} CopyBehind(pre: seq<byte>, out: seq<byte>, len: nat, d: nat)
    requires 1 <= d <= |out|
    ensures CopyOut(pre + out, len, d) == pre + CopyOut(out, len, d)
    decreases len
  {
    if len == 0 {
    } else {
      var b := out[|out| - d];
      assert pre + out + [b] == pre + (out + [b]);
      CopyBehind(pre, out + [b], len - 1, d);
    }
  }

  lemma {:induction false} ExpandBehind(pre: seq<byte>, out: seq<byte>, ts: seq<Token>)
    requires ReachesFrom(pre + out, ts, |pre|)
    ensures Reaches(out, ts) && Expand(pre + out, ts) == pre + Expand(out, ts)
    decreases |ts|
  {
    hide CopyOut;
    if ts == [] {
    } else {
      var n := |ts| - 1;
      ExpandBehind(pre, out, ts[..n]);
      var o := Expand(out, ts[..n]);
      match ts[n]
      case Literal(b) => assert pre + o + [b] == pre + (o + [b]);
      case Match(len, d) => CopyBehind(pre, o, len, d);
    }
  }

  lemma BodyBehind(pre: seq<byte>, out: seq<byte>, b: Body)
    requires ValidBody(pre + out, b) && BodyFrom(pre + out, b, |pre|)
    ensures ValidBody(out, b) && BodyOut(pre + out, b) == pre + BodyOut(out, b)
  {
    hide ValidHeader, AllCodable, HasCode, Reaches, ReachesFrom, Expand;
    match b
    case Stored(data) => assert pre + out + data == pre + (out + data);
    case Fixed(ts) => ExpandBehind(pre, out, ts);
    case Dynamic(_, ts) => ExpandBehind(pre, out, ts);
  }

  lemma FrontFrom(bs: seq<Block>, head: nat, floor: nat)
    requires BlocksFrom(bs, head, floor) && bs != [] && head <= |bs| - 1
    ensures BlocksFrom(bs[..|bs| - 1], head, floor) && BodyFrom(BlocksOut(bs[..|bs| - 1]), bs[|bs| - 1].body, floor)
  {
    hide BodyFrom, BlocksOut;
    var front := bs[..|bs| - 1];
    forall i | head <= i < |front| ensures BodyFrom(BlocksOut(front[..i]), front[i].body, floor) {
      assert front[..i] == bs[..i];
    }
  }

  /** The blocks behind a full flush stand on their own. */
  lemma {:induction false} TailAlone(bs: seq<Block>, head: nat)
    requires ValidBlocks(bs) && head <= |bs| && BlocksFrom(bs, head, |BlocksOut(bs[..head])|)
    ensures ValidBlocks(bs[head..]) && BlocksOut(bs) == BlocksOut(bs[..head]) + BlocksOut(bs[head..])
    decreases |bs|
  {
    hide ValidBody, BodyOut, BodyFrom;
    if head == |bs| {
      assert bs[..head] == bs && bs[head..] == [];
    } else {
      var n := |bs| - 1;
      var front, tail := bs[..n], bs[head..];
      assert front[..head] == bs[..head] && front[head..] == tail[..n - head];
      FrontFrom(bs, head, |BlocksOut(bs[..head])|);
      TailAlone(front, head);
      BodyBehind(BlocksOut(bs[..head]), BlocksOut(front[head..]), bs[n].body);
    }
  }

  // ------------------------------------------------------------------- their bits

  lemma BlockBitsSame(b: Block, out: seq<byte>, out': seq<byte>, pos: nat)
    requires ValidBody(out, b.body) && ValidBody(out', b.body)
    ensures BlockBits(b, out, pos) == BlockBits(b, out', pos)
  {
    hide ValidHeader, AllCodable, HasCode, Reaches, StoredBits, CodedBits, HeaderBits, Padding, ToBits, FixedLit,
         FixedDist;
  }

  lemma ValidFront(bs: seq<Block>)
    requires ValidBlocks(bs) && bs != []
    ensures ValidBlocks(bs[..|bs| - 1])
  {
  }

  lemma NoBlocks(base: nat)
    ensures ValidBlocks([]) && BlocksBits([], base) == []
  {
  }

  lemma {:induction false} TailBitsAre(bs: seq<Block>, head: nat, base: nat)
    requires ValidBlocks(bs) && head <= |bs| && ValidBlocks(bs[head..])
    ensures ValidBlocks(bs[..head])
    ensures var before := BlocksBits(bs[..head], base);
            BlocksBits(bs, base) == before + BlocksBits(bs[head..], base + |before|)
    decreases |bs|
  {
    hide ValidBody, BlockBits, BlocksOut, ValidBlocks, BlocksBits;
    if head == |bs| {
      assert bs[..head] == bs && bs[head..] == [];
      NoBlocks(base + |BlocksBits(bs, base)|);
    } else {
      var n := |bs| - 1;
      var front, tail := bs[..n], bs[head..];
      assert front[..head] == bs[..head] && front[head..] == tail[..n - head] && tail[n - head] == bs[n];
      BlocksBitsLast(bs, base);
      ValidFront(tail);
      TailBitsAre(front, head, base);
      var before := BlocksBits(bs[..head], base);
      BlocksBitsLast(tail, base + |before|);
      var mid := BlocksBits(front[head..], base + |before|);
      assert |before + mid| == |before| + |mid|;
      BlockBitsSame(bs[n], BlocksOut(front), BlocksOut(front[head..]), base + |before| + |mid|);
      Assoc(before, mid, BlockBits(bs[n], BlocksOut(front), base + |before| + |mid|));
    }
  }

  lemma EndAligned(zlib: bool, end: nat, adler: nat)
    ensures (end + |Padding(end) + (if zlib then ChecksumBits(adler) else [])|) % 8 == 0
  {
    hide Padding, ChecksumBits;
    PaddingLen(end);
    ChecksumLen(adler);
  }

  lemma RunEnd(c: Config, end: nat, adler: nat)
    requires c.fin && adler < 0x1_0000_0000
    requires c.bits == Padding(end) + (if c.zlib then ChecksumBits(adler) else []) && (end + |c.bits|) % 8 == 0
    ensures Run(EndBlock(c)).Some? && Run(EndBlock(c)).value.out == c.out
  {
    hide Run, Padding, ChecksumBits, Align;
    PaddingLen(end);
    if c.zlib {
      AlignPadding(end, ChecksumBits(adler));
      assert ChecksumBits(adler) + [] == ChecksumBits(adler);
      RunChecksum(c.(ph := Trailer(0, 0), bits := ChecksumBits(adler)), adler, []);
    } else {
      RunDone(c.(ph := Done(0)));
    }
  }

  /** Blocks that close a stream, with what follows them, from a block header on. */
  lemma RunTail(c: Config, bs: seq<Block>, base: nat, adler: nat)
    requires c.ph.BlockHeader? && c.out == [] && !c.fin && ValidBlocks(bs) && Closes(bs) && adler < 0x1_0000_0000
      && base % 8 == 0
    requires c.bits == BlocksBits(bs, base) + (Padding(base + |BlocksBits(bs, base)|)
      + (if c.zlib then ChecksumBits(adler) else []))
    ensures Run(c).Some? && Run(c).value.out == BlocksOut(bs)
  {
    hide Run, BlockBits, BodyOut, ValidBody, Padding, ChecksumBits, EndBlock, BlocksOut, BlocksBits, ValidBlocks;
    var n := |bs| - 1;
    BlocksBitsLast(bs, base);
    BlocksOutLast(bs);
    var before := BlocksBits(bs[..n], base);
    var w := BlockBits(bs[n], BlocksOut(bs[..n]), base + |before|);
    var end := base + |before + w|;
    var e := Padding(end) + (if c.zlib then ChecksumBits(adler) else []);
    EndAligned(c.zlib, end, adler);
    Assoc(before, w, e);
    RunBlocks(c, bs[..n], base, w + e);
    var d := c.(bits := w + e, out := BlocksOut(bs[..n]));
    RunBody(d, bs[n], base + |before|, e);
    RunEnd(d.(fin := true, bits := e, out := BlocksOut(bs)), end, adler);
  }

  // ------------------------------------------------------------------ the compressor

  lemma DropBytes(s: seq<byte>, n: nat)
    requires n <= |s|
    ensures BytesBits(s[n..]) == BytesBits(s)[8 * n..]
  {
    hide BytesBits;
    assert s == s[..n] + s[n..];
    BytesBitsConcat(s[..n], s[n..]);
    BytesBitsLen(s[..n]);
  }

  lemma TailCloses(bs: seq<Block>, head: nat)
    requires Closes(bs) && head < |bs|
    ensures Closes(bs[head..])
  {
    var tail := bs[head..];
    assert tail[..|tail| - 1] == bs[head..|bs| - 1];
  }

  /** The bits of a finished stream behind its first `head` blocks. */
  lemma BehindHead(zlib: bool, bs: seq<Block>, head: nat, mark: nat, adler: nat)
    requires ValidBlocks(bs) && head <= |bs| && ValidBlocks(bs[head..]) && ValidBlocks(bs[..head])
    requires |OpenBits(zlib, bs[..head])| == 8 * mark
    ensures 8 * mark <= |FinishedBits(zlib, bs, adler)|
    ensures var w := BlocksBits(bs[head..], 8 * mark);
            FinishedBits(zlib, bs, adler)[8 * mark..]
              == w + (Padding(8 * mark + |w|) + (if zlib then ChecksumBits(adler) else []))
  {
    hide BlocksBits, Prefix, Padding, ChecksumBits, ValidBlocks;
    var px := Prefix(zlib);
    var a := BlocksBits(bs[..head], |px|);
    TailBitsAre(bs, head, |px|);
    assert |px + a| == |px| + |a|;
    var w := BlocksBits(bs[head..], 8 * mark);
    var e := Padding(8 * mark + |w|) + (if zlib then ChecksumBits(adler) else []);
    assert |px + (a + w)| == 8 * mark + |w|;
    assert px + (a + w) + e == (px + a) + (w + e);
  }

  lemma HeadFacts(c: C.Compressor)
    requires c.Valid() && c.head > 0
    ensures c.head <= |c.blocks| && |BlocksOut(c.blocks[..c.head])| == c.ring.floor
      && BlocksFrom(c.blocks, c.head, c.ring.floor)
    ensures ValidBlocks(c.blocks[..c.head]) && |OpenBits(c.cfg.zlib, c.blocks[..c.head])| == 8 * c.mark
  {
    hide BlocksOut, ValidBlocks, OpenBits, BlocksFrom, BytesBits, ToBits, c.lz.Valid;
  }

  /** After a full flush (see `Compress`): what was delivered behind it inflates, on its
      own, to the input behind it. */
  lemma FullFlushPoint(c: C.Compressor)
    requires c.Valid() && c.Idle() && c.finished && c.out.flushLeft == 0 && 0 < c.head < |c.blocks|
    ensures c.mark <= |c.out.delivered| && c.ring.floor <= |c.ring.seen|
    ensures var r := Run(Config(BlockHeader, c.cfg.zlib, false, BytesBits(c.out.delivered[c.mark..]), [], Either));
            r.Some? && r.value.out == c.ring.seen[c.ring.floor..]
  {
    hide C.Compressor.Valid, BytesBits, Run, FinishedBits, BlocksOut, ValidBlocks, BlocksBits, OpenBits, Closes,
         Padding, ChecksumBits, BlocksFrom, Adler32;
    RoundTrip.Delivered(c);
    HeadFacts(c);
    var zlib, bs, head := c.cfg.zlib, c.blocks, c.head;
    TailAlone(bs, head);
    TailCloses(bs, head);
    C.FirstAdler(c.ring.seen);
    var adler := if zlib then c.adler else 0;
    RoundTrip.SameWithoutChecksum(zlib, bs, c.adler);
    BehindHead(zlib, bs, head, c.mark, adler);
    BytesBitsLen(c.out.delivered);
    DropBytes(c.out.delivered, c.mark);
    var d := Config(BlockHeader, zlib, false, BytesBits(c.out.delivered[c.mark..]), [], Either);
    RunTail(d, bs[head..], 8 * c.mark, adler);
  }
}
