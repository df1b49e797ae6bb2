/**
  The two sides together: whatever the compressor delivers, inflated in whatever
  pieces, is the input again.
 */
module RoundTrip {
  import opened Bits
  import opened Deflate
  import opened Blocks
  import opened Stream
  import opened BitWriter
  import opened BlockWriter
  import opened FlushedStream
  import opened OutputBuffer
  import opened Dictionary
  import opened Parsing
  import opened Adler
  import D = Decompress
  import I = Inflater
  import C = Compressor

  // ------------------------------------------- what a finished compressor sent

  lemma WholeBytes(sent: seq<byte>, v: nat, n: nat, bits: seq<bool>)
    requires n < 8 && BytesBits(sent) + ToBits(v, n) == bits && |bits| % 8 == 0
    ensures BytesBits(sent) == bits
  {
    hide BytesBits, ToBits;
    assert |BytesBits(sent)| == 8 * |sent|;
    assert ToBits(v, n) == [];
    assert BytesBits(sent) + [] == BytesBits(sent);
  }

  lemma FinishedWhole(zlib: bool, bs: seq<Block>, adler: nat)
    requires ValidBlocks(bs)
    ensures |FinishedBits(zlib, bs, adler)| % 8 == 0
  {
    hide OpenBits, ChecksumBits, Padding, ValidBlocks, ValidBody, ValidHeader, Zig, BodyOut, AllCodable, BlocksOut,
         Unpack, ValidPacked, Expand, Codable, FixedLit, FixedDist, PadLen, ValidToken, Reaches;
    PaddingLen(|OpenBits(zlib, bs)|);
    ChecksumLen(adler);
  }

  lemma NoTokens(out: seq<byte>, seen: seq<byte>, floor: nat)
    ensures Parsed(out, [], seen, |seen|, floor) ==> out == seen
  {
    assert seen[..|seen|] == seen;
  }

  /** When the stream is finished and nothing is pending, the delivered bytes are
      exactly a finished stream for the whole input. */
  lemma Delivered(c: C.Compressor)
    requires c.Valid() && c.Idle() && c.finished && c.out.flushLeft == 0
    ensures ValidBlocks(c.blocks) && Closes(c.blocks) && BlocksOut(c.blocks) == c.ring.seen
    ensures BytesBits(c.out.delivered) == FinishedBits(c.cfg.zlib, c.blocks, c.adler)
  {
    hide FinishedBits, BlocksOut, ValidBlocks, Closes, BytesBits, ToBits, c.lz.Valid, Adler32, c.lz.HasRoom, Mirrored,
         Holds;
    FinishedWhole(c.cfg.zlib, c.blocks, c.adler);
    WholeBytes(c.out.sent, c.out.w.bitBuffer, c.out.w.bitsIn, FinishedBits(c.cfg.zlib, c.blocks, c.adler));
    assert c.out.buf[c.out.flushOfs..c.out.flushOfs + 0] == [];
    assert c.out.sent == c.out.delivered;
    NoTokens(BlocksOut(c.blocks), c.ring.seen, c.ring.floor);
  }

  lemma SameWithoutChecksum(zlib: bool, bs: seq<Block>, adler: nat)
    requires ValidBlocks(bs)
    ensures FinishedBits(zlib, bs, if zlib then adler else 0) == FinishedBits(zlib, bs, adler)
  {
  }

  /** The round trip: inflating the delivered bytes gives the input, and for a
      zlib stream its checksum. */
  lemma DeliveredInflates(c: C.Compressor)
    requires c.Valid() && c.Idle() && c.finished && c.out.flushLeft == 0
    ensures var r := Inflate(c.cfg.zlib, c.out.delivered);
            r.Some? && r.value.out == c.ring.seen
            && r.value.ph == Done(if c.cfg.zlib then Adler32(1, c.ring.seen) else 0)
  {
    hide C.Compressor.Valid, FinishedBits, BlocksOut, ValidBlocks, Closes, BytesBits, Adler32, Run, Padding, OpenBits;
    Delivered(c);
    C.FirstAdler(c.ring.seen);
    var adler := if c.cfg.zlib then c.adler else 0;
    var bits := FinishedBits(c.cfg.zlib, c.blocks, adler);
    SameWithoutChecksum(c.cfg.zlib, c.blocks, c.adler);
    FinishedStreamInflates(c.cfg.zlib, c.blocks, adler, [], Either);
    assert bits + [] == bits;
  }

  lemma NoBitsLeft(v: nat)
    ensures ToBits(v, 0) == []
  {
  }

  /** After a sync or full flush (see `Compress`) everything consumed so far can be
      inflated from what was delivered, and what follows starts at a byte boundary. */
  lemma SyncPoint(c: C.Compressor, rest: seq<byte>)
    requires c.Valid() && c.Idle() && c.Synced() && c.out.flushLeft == 0
    ensures Run(Start(c.cfg.zlib, BytesBits(c.out.delivered + rest), Either))
         == Run(Config(BlockHeader, c.cfg.zlib, false, BytesBits(rest), c.ring.seen, Either))
  {
    hide FinishedBits, BlocksOut, ValidBlocks, Closes, BytesBits, ToBits, c.lz.Valid, Adler32, c.lz.HasRoom, Mirrored,
         Holds, Run, OpenBits, AllOpen;
    assert c.out.buf[c.out.flushOfs..c.out.flushOfs + 0] == [];
    assert c.out.sent == c.out.delivered;
    NoBitsLeft(c.out.w.bitBuffer);
    assert BytesBits(c.out.sent) + [] == BytesBits(c.out.sent);
    BytesBitsConcat(c.out.delivered, rest);
    BytesBitsLen(c.out.delivered);
    BytesBitsLen(rest);
    NoTokens(BlocksOut(c.blocks), c.ring.seen, c.ring.floor);
    RunOpen(c.cfg.zlib, c.blocks, BytesBits(rest), Either);
  }

  // ------------------------------------------------------------- whole runs

  /** What a finished stream for `src` is. */
  ghost predicate StreamFor(zlib: bool, sent: seq<byte>, src: seq<byte>)
  {
    var r := Inflate(zlib, sent);
    r.Some? && r.value.out == src && r.value.ph == Done(if zlib then Adler32(1, src) else 0)
  }

  /** Nothing but the end is asked for after the end. */
  ghost predicate Orderly(cuts: seq<(nat, nat, Flush)>)
  {
    forall i, j :: 0 <= i < j < |cuts| && cuts[i].2 == Finish ==> cuts[j].2 == Finish
  }

  lemma Finished(c: C.Compressor, src: seq<byte>, sent: seq<byte>)
    requires c.Valid() && c.Idle() && c.finished && c.out.flushLeft == 0 && c.ring.seen == src
      && c.out.delivered == sent
    ensures StreamFor(c.cfg.zlib, sent, src)
  {
    hide C.Compressor.Valid, Inflate, Adler32;
    DeliveredInflates(c);
  }

  /** A caller that hands over its input and its room in pieces of any sizes, with
      any flushes between them, until a call reports the end or an error. What it
      got is all that was delivered; at the end it is a stream for all that was
      taken. */
  method CompressInPieces(src: seq<byte>, cfg: Settings, maxProbes: nat, greedy: bool, rle: bool, filter: bool,
          words: bool,
                          cuts: seq<(nat, nat, Flush)>)
    returns (st: C.Status, sent: seq<byte>, at: nat)
    ensures at <= |src| && (st == C.Complete ==> StreamFor(cfg.zlib, sent, src[..at]))
    ensures Orderly(cuts) ==> st != C.BadParam
  {
    hide C.Compressor.Valid, C.Compressor.Idle, StreamFor;
    var c := C.NewCompressor(cfg, maxProbes, greedy, rle, filter, false, words, false);
    st, sent, at := C.Okay, [], 0;
    var i := 0;
    assert src[..0] == [];
    while i < |cuts| && st == C.Okay
      invariant fresh(c) && fresh(c.ring) && fresh(c.ring.dict) && fresh(c.ring.next) && fresh(c.ring.hash)
      invariant fresh(c.lz) && fresh(c.lz.code) && fresh(c.lz.count0) && fresh(c.lz.count1)
      invariant fresh(c.out) && fresh(c.out.w) && fresh(c.out.buf) && fresh(c.out.dst)
      invariant c.Valid() && c.Idle() && i <= |cuts| && at <= |src| && st == c.status && !c.out.callback && c.cfg == cfg
      invariant c.ring.seen == src[..at] && c.out.delivered == sent
      invariant st == C.Complete ==> c.finished && c.out.flushLeft == 0
      invariant st != C.BadParam && c.wantsToFinish ==> exists k :: 0 <= k < i && cuts[k].2 == Finish
      invariant Orderly(cuts) ==> st != C.BadParam
    {
      var piece := src[at..D.Least(at + cuts[i].0, |src|)];
      var dst := new byte[cuts[i].1](_ => 0);
      ghost var taken := src[..at];
      var used, made;
      st, used, made := c.Compress(piece, dst, cuts[i].2);
      sent := sent + dst[..made];
      assert src[..at] + piece[..used] == src[..at + used];
      at, i := at + used, i + 1;
    }
    if st == C.Complete { Finished(c, src[..at], sent); }
  }

  /** Asking for the end again and again, with any room at all, reaches it. */
  method CompressWhole(src: seq<byte>, cfg: Settings, maxProbes: nat, greedy: bool, rle: bool, filter: bool,
          words: bool, room: nat)
    returns (sent: seq<byte>)
    requires room > 0
    ensures StreamFor(cfg.zlib, sent, src)
  {
    hide C.Compressor.Valid, C.Compressor.Idle, StreamFor;
    var c := C.NewCompressor(cfg, maxProbes, greedy, rle, filter, false, words, false);
    var st, at: nat := C.Okay, 0;
    sent := [];
    assert src[..0] == [];
    while st == C.Okay
      invariant fresh(c) && fresh(c.ring) && fresh(c.ring.dict) && fresh(c.ring.next) && fresh(c.ring.hash)
      invariant fresh(c.lz) && fresh(c.lz.code) && fresh(c.lz.count0) && fresh(c.lz.count1)
      invariant fresh(c.out) && fresh(c.out.w) && fresh(c.out.buf) && fresh(c.out.dst)
      invariant c.Valid() && c.Idle() && at <= |src| && st == c.status != C.BadParam && !c.out.callback && c.cfg == cfg
      invariant c.ring.seen == src[..at] && c.out.delivered == sent
      invariant c.finished ==> at == |src|
      invariant st == C.Complete ==> c.finished && c.out.flushLeft == 0
      decreases st == C.Okay, c.Left(|src| - at), c.out.flushLeft
    {
      var dst := new byte[room](_ => 0);
      var used, made;
      st, used, made := c.Compress(src[at..], dst, Finish);
      sent := sent + dst[..made];
      assert src[..at] + src[at..][..used] == src[..at + used];
      at := at + used;
    }
    assert src[..at] == src;
    Finished(c, src, sent);
  }

  /** tdefl_compress_mem_to_output: one call with a callback always succeeds. */
  method ToOutput(src: seq<byte>, cfg: Settings, maxProbes: nat, greedy: bool, rle: bool, filter: bool, words: bool)
    returns (ok: bool, ghost sent: seq<byte>)
    ensures ok && StreamFor(cfg.zlib, sent, src)
  {
    hide C.Compressor.Valid, C.Compressor.Idle, StreamFor;
    var c := C.NewCompressor(cfg, maxProbes, greedy, rle, filter, false, words, true);
    var st, used, made := c.Compress(src, null, Finish);
    assert src[..used] == src && [] + src == src;
    ok, sent := st == C.Complete, c.out.delivered;
    Finished(c, src, sent);
  }

  /** For every input, all settings and any room: compressed and decompressed, the
      input comes back. */
  method ThereAndBack(src: seq<byte>, cfg: Settings, maxProbes: nat, greedy: bool, rle: bool, filter: bool,
          words: bool, room: nat)
    returns (back: array<byte>, len: nat)
    requires room > 0
    ensures len <= back.Length && back[..len] == src
  {
    hide Inflate, Ends, Adler32;
    var sent := CompressWhole(src, cfg, maxProbes, greedy, rle, filter, words, room);
    CompletesIfValid(cfg.zlib, sent, Plain);
    var made;
    back, made := D.ToHeap(sent, cfg.zlib, words);
    len := made.value;
  }
}
