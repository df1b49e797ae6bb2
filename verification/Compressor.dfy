/**
  The compressor: input through the dictionary into the token buffer, blocks out
  of it, bytes to the caller. At every point what was written is the bits of a
  valid list of blocks, and those blocks followed by the recorded tokens stand
  for exactly the input consumed so far.
 */
module Compressor {
  import opened Bits
  import opened Deflate
  import opened Blocks
  import opened Stream
  import opened LzBuffer
  import opened BitWriter
  import opened BlockWriter
  import opened BlockSize
  import Emitter
  import opened FlushedStream
  import opened OutputBuffer
  import opened Dictionary
  import opened MatchSearch
  import opened Parsing
  import opened Adler

  const FAST_AHEAD: nat := 4096

  /** The flags of tdefl_init, and two choices made when the code is compiled. */
  datatype Options = Options(probes0: nat, probes1: nat, greedy: bool, rle: bool, filter: bool,
                             checksum: bool, fastParse: bool, words: bool)

  /** What one round of the parser records, the match it lets wait, and how far the
      lookahead moves. */
  datatype Choice = Choice(tokens: seq<Token>, savedLen: nat, savedDist: nat, move: nat)

  /** Lazy parsing: a match waits one position and gives way to a longer one there.
      A match of 128 bytes, or any when parsing is greedy, does not wait. */
  ghost function Choose(greedy: bool, savedLen: nat, savedDist: nat, savedLit: byte, lit: byte, dist: nat, len: nat):
        Choice
  {
    if savedLen >= len && savedLen > 0 then Choice([Match(savedLen, savedDist)], 0, savedDist, savedLen - 1)
    else
      var before := if savedLen > 0 then [Literal(savedLit)] else [];
      if savedLen == 0 && dist == 0 then Choice([Literal(lit)], 0, savedDist, 1)
      else if len >= 128 || (greedy && savedLen == 0) then Choice(before + [Match(len, dist)], 0, savedDist, len)
      else Choice(before, len, dist, 1)
  }

  datatype Status = Okay | Complete | BadParam

  lemma FirstAdler(seen: seq<byte>)
    ensures IsAdler(1) && IsAdler(Adler32(1, seen)) && Adler32(1, seen) < 0x1_0000_0000
  {
    AdlerConcat(1, seen, []);
  }

  ghost predicate OneMore(before: seq<Block>, after: seq<Block>)
  {
    exists b :: after == before + [Block(false, b)]
  }

  lemma StillRoom(lz: LzBuffer)
    requires lz.codePos <= CODE_BUF_SIZE - 8
    ensures lz.HasRoom()
  {
  }

  lemma FoundIsUsable(r: Ring, len0: nat, dist: nat, len: nat)
    requires r.Valid() && Found(r, len0, dist, len)
    ensures (dist == 0 && len == len0) || (len0 < len <= r.ahead && dist <= WINDOW
      && Repeats(r.seen, r.Done(), len, dist, r.floor) && dist >= 1)
  {
  }

  lemma RunRepeats(r: Ring, n: nat)
    requires r.Valid() && r.size >= 1 && Fits(Asked(r)) && (n == 0 || n == Common(Asked(r), 1))
    ensures Repeats(r.seen, r.Done(), n, 1, r.floor) && n <= r.ahead
  {
    hide Mirrored, Holds, Common;
    AskedFits(r);
    if n > 0 { CommonAgrees(Asked(r), 1, n); }
  }

  lemma RoomForTwo(lz: LzBuffer)
    requires lz.HasRoom()
    ensures lz.codePos + 4 <= CODE_BUF_SIZE
  {
  }

  /** The arithmetic of the 32-bit position. */
  lemma Sum32(a: nat, n: nat)
    ensures (a % WORD32 + n) % WORD32 == (a + n) % WORD32
  {
  }

  lemma WritingMeans(o: Output)
    requires o.Writing()
    ensures o.w.Fits() <==> o.w.pos < o.w.end
    ensures o.w.Fits() <==> |o.w.full| / 8 < OUT_ROOM
  {
  }

  lemma ParsedFacts(out: seq<byte>, ts: seq<Token>, seen: seq<byte>, k: nat, floor: nat)
    requires Parsed(out, ts, seen, k, floor)
    ensures k <= |seen| && Reaches(out, ts) && Expand(out, ts) == seen[..k]
  {
    FromReaches(out, ts, floor);
  }

  /** A full flush stands behind the first `head` blocks, at byte `floor` of the input;
      later blocks do not reach back behind it. */
  ghost predicate Headed(bs: seq<Block>, head: nat, floor: nat)
  {
    head <= |bs| && |BlocksOut(bs[..head])| == floor && BlocksFrom(bs, head, floor)
  }

  lemma AllCovered(bs: seq<Block>, seen: seq<byte>, floor: nat)
    requires Parsed(BlocksOut(bs), [], seen, |seen|, floor)
    ensures Headed(bs, |bs|, |seen|) && Parsed(BlocksOut(bs), [], seen, |seen|, |seen|)
  {
    hide BlocksOut;
    assert seen[..|seen|] == seen && bs[..|bs|] == bs;
  }

  /** The first `head` blocks take `mark` whole bytes. */
  ghost predicate MarkAt(zlib: bool, bs: seq<Block>, head: nat, mark: nat)
  {
    head <= |bs| && (head > 0 ==> ValidBlocks(bs[..head]) && |OpenBits(zlib, bs[..head])| == 8 * mark)
  }

  lemma MarkStays(zlib: bool, bs: seq<Block>, b: Body, flush: Flush, head: nat, mark: nat)
    requires MarkAt(zlib, bs, head, mark)
    ensures MarkAt(zlib, Flushed(bs, b, flush), head, mark)
  {
    hide ValidBlocks, OpenBits;
    assert Flushed(bs, b, flush)[..head] == bs[..head];
  }

  lemma HeadedFlushed(bs: seq<Block>, b: Body, flush: Flush, ts: seq<Token>, seen: seq<byte>, k: nat, head: nat,
          floor: nat)
    requires Headed(bs, head, floor) && Parsed(BlocksOut(bs), ts, seen, k, floor) && (b.Stored? || b.tokens == ts)
    ensures Headed(Flushed(bs, b, flush), head, floor)
  {
    hide BlocksOut, BlocksFrom, Expand, ReachesFrom;
    var bs1 := bs + [Block(flush.Finish?, b)];
    FromSnoc(bs, Block(flush.Finish?, b), head, floor);
    assert bs1[..head] == bs[..head];
    if flush.SyncFlush? || flush.FullFlush? {
      FromSnoc(bs1, Block(false, Stored([])), head, floor);
      assert (bs1 + [Block(false, Stored([]))])[..head] == bs[..head];
    } else {
      assert bs1 + [] == bs1;
    }
  }

  /** The blocks after a flush, the bytes they stand for, and their bits. */
  lemma NewBlocks(zlib: bool, bs: seq<Block>, ts: seq<Token>, seen: seq<byte>, k: nat, head: nat, floor: nat, b: Body,
          flush: Flush, adler: nat,
                  sent: seq<bool>, pending: seq<bool>)
    requires ValidBlocks(bs) && AllOpen(bs) && Parsed(BlocksOut(bs), ts, seen, k, floor) && Headed(bs, head, floor)
    requires ValidBody(BlocksOut(bs), b) && BodyOut(BlocksOut(bs), b) == Expand(BlocksOut(bs), ts)
      && (b.Stored? || b.tokens == ts)
    requires sent + pending == Written(zlib, bs) && |sent| % 8 == 0
    ensures var bs' := Flushed(bs, b, flush);
            && ValidBlocks(bs') && bs' != [] && (if flush.Finish? then Closes(bs') else AllOpen(bs'))
            && Parsed(BlocksOut(bs'), [], seen, k, floor) && Headed(bs', head, floor)
              && |BlocksOut(bs')| == |BlocksOut(bs)| + TotalLen(ts)
            && sent + (pending + FlushBits(bs == [], zlib, flush, BlocksOut(bs), b, adler, |pending|))
                 == StreamAfter(zlib, bs', flush, adler)
            && (flush.SyncFlush? || flush.FullFlush? ==> |StreamAfter(zlib, bs', flush, adler)| % 8 == 0)
  {
    hide ValidBody, BodyOut, Expand, ValidBlocks, BlocksOut, AllOpen, Parsed, TotalLen, Written, StreamAfter, Closes,
         FlushBits, Headed;
    ParsedFacts(BlocksOut(bs), ts, seen, k, floor);
    FlushedBlocks(bs, b, flush);
    FlushExtends(zlib, bs, b, flush, adler);
    assert |sent + pending| == |sent| + |pending|;
    FlushSame(bs == [], zlib, flush, BlocksOut(bs), b, adler, |sent + pending|, |pending|);
    Assoc(sent, pending, FlushBits(bs == [], zlib, flush, BlocksOut(bs), b, adler, |pending|));
    ParsedNone(BlocksOut(bs), ts, seen, k, floor);
    HeadedFlushed(bs, b, flush, ts, seen, k, head, floor);
    ExpandLen(BlocksOut(bs), ts);
  }

  /** A stream of whole bytes leaves nothing in the register. */
  lemma WholeStream(o: Output, bits: seq<bool>)
    requires o.Valid() && BytesBits(o.sent) + ToBits(o.w.bitBuffer, o.w.bitsIn) == bits
    ensures |bits| % 8 == 0 ==> o.w.bitsIn == 0
  {
    hide BytesBits, ToBits;
    BytesBitsLen(o.sent);
  }

  lemma Nothing(zlib: bool)
    ensures ValidBlocks([]) && BlocksOut([]) == [] && Written(zlib, []) == [] && Parsed([], [], [], 0, 0)
    ensures BytesBits([]) + ToBits(0, 0) == []
  {
  }

  lemma BufferFacts(lz: LzBuffer)
    requires lz.Valid()
    ensures AllValid(lz.tokens) && |lz.tokens| <= 58254 && lz.total == TotalLen(lz.tokens)
    ensures lz.code.Length == CODE_BUF_SIZE && lz.count0.Length == LIT_CODES && lz.count1.Length == DIST_CODES
  {
    hide Counted, OpenBuf, Off, Cell;
    BufferBounds(lz.code[..], lz.tokens);
  }

  lemma EmptyRing(r: Ring)
    requires r.Valid()
    ensures r.ahead <= |r.seen|
  {
  }

  lemma DictLen(r: Ring)
    requires r.Valid()
    ensures WINDOW <= r.dict.Length
  {
  }

  class Compressor {
    const cfg: Settings
    const opts: Options
    const ring: Ring
    const lz: LzBuffer
    const out: Output
    var savedDist: nat
    var savedLen: nat
    var savedLit: byte
    var dictPos: nat
    var blockIndex: nat
    var finished: bool
    var wantsToFinish: bool
    var status: Status
    var adler: nat
    ghost var blocks: seq<Block>
    /** The number of blocks, and of bytes written, at the last full flush. */
    ghost var head: nat
    ghost var mark: nat

    ghost predicate Apart()
      reads out
    {
      && ring.dict != lz.code && ring.dict != out.buf && lz.code != out.buf
      && out.dst != ring.dict && out.dst != lz.code && out.dst != out.buf
      && lz.count0 != lz.count1
    }

    ghost function Waiting(): nat
      reads this`savedLen
    {
      if savedLen > 0 then 1 else 0
    }

    /** A match that waits: the literal in front of the lookahead was consumed,
        and a repetition starts at it. */
    ghost predicate SavedOk()
      reads this`savedDist, this`savedLen, this`savedLit, ring`ahead, ring`seen, ring`floor
    {
      ring.ahead <= |ring.seen| &&
      (savedLen > 0 ==>
        && ring.Done() >= 1 && MIN_MATCH <= savedLen < 128 && savedLen - 1 <= ring.ahead && savedDist <= WINDOW
        && savedLit == ring.seen[ring.Done() - 1]
        && Repeats(ring.seen, ring.Done() - 1, savedLen, savedDist, ring.floor))
    }

    /** Blocks and tokens stand for the input up to `k`. */
    ghost predicate Covers(k: nat)
      reads this`blocks, lz`tokens, ring`seen, ring`floor
    {
      Parsed(BlocksOut(blocks), lz.tokens, ring.seen, k, ring.floor)
    }

    /** Blocks, tokens and the waiting match cover the consumed input. */
    ghost predicate ParseOk()
      reads this`savedDist, this`savedLen, this`savedLit, this`blocks, ring`ahead, ring`seen, ring`floor, lz`tokens
    {
      SavedOk() && Covers(ring.Done() - Waiting())
    }

    ghost predicate BlocksOk()
      reads this`blocks, this`finished, this`dictPos, this`blockIndex, this`head, this`mark, ring`floor
    {
      && Headed(blocks, head, ring.floor) && ValidBlocks(blocks)
        && (if finished then Closes(blocks) else AllOpen(blocks))
      && dictPos == |BlocksOut(blocks)| % WORD32 && (blockIndex == 0 <==> blocks == [])
        && MarkAt(cfg.zlib, blocks, head, mark)
    }

    ghost predicate StreamIs(bits: seq<bool>)
      reads out, out.w
    {
      BytesBits(out.sent) + ToBits(out.w.bitBuffer, out.w.bitsIn) == bits
    }

    /** The bits of everything written, delivered or not. */
    ghost predicate StreamOk()
      requires ValidBlocks(blocks)
      reads this`blocks, this`finished, this`adler, out, out.w
    {
      StreamIs(if finished then FinishedBits(cfg.zlib, blocks, adler) else Written(cfg.zlib, blocks))
    }

    ghost predicate Valid()
      reads this, ring, ring.dict, lz, lz.code, lz.count0, lz.count1, out, out.w, out.buf, out.dst
    {
      && Apart() && ring.Valid() && ring.Clamped() && lz.Valid() && out.Valid()
      && BlocksOk() && ParseOk() && StreamOk()
      && opts.probes0 >= 1 && opts.probes1 >= 1
    }

    lemma Untouched()
      requires opts.probes0 >= 1 && opts.probes1 >= 1 && Apart()
      requires ring.Valid() && ring.Clamped() && ring.seen == [] && lz.Valid() && lz.tokens == []
      requires out.Valid() && out.sent == [] && out.w.bitsIn == 0 && out.w.bitBuffer == 0
      requires savedLen == 0 && dictPos == 0 && blockIndex == 0 && !finished && blocks == [] && head == 0
      ensures Valid()
    {
      hide ValidBlocks, Written, Parsed, BytesBits, ToBits, out.Valid, lz.Valid;
      Nothing(cfg.zlib);
      EmptyRing(ring);
    }

    /** tdefl_init, over an empty dictionary, token buffer and output. */
    constructor (cfg: Settings, opts: Options, ring: Ring, lz: LzBuffer, out: Output)
      requires opts.probes0 >= 1 && opts.probes1 >= 1
      requires ring.Valid() && ring.Clamped() && ring.seen == []
      requires lz.Valid() && lz.HasRoom() && lz.tokens == []
      requires out.Valid() && out.sent == [] && out.delivered == [] && out.w.bitsIn == 0 && out.w.bitBuffer == 0
      requires ring.dict != lz.code && ring.dict != out.buf && lz.code != out.buf
      requires out.dst != ring.dict && out.dst != lz.code && out.dst != out.buf && lz.count0 != lz.count1
      ensures Valid()
      ensures this.cfg == cfg && this.opts == opts && this.ring == ring && this.lz == lz && this.out == out
      ensures blocks == [] && !finished && !wantsToFinish && status == Okay && adler == 1 && savedLen == 0
    {
      hide Valid;
      this.cfg, this.opts := cfg, opts;
      this.ring, this.lz, this.out := ring, lz, out;
      savedDist, savedLen, savedLit, dictPos, blockIndex := 0, 0, 0, 0, 0;
      finished, wantsToFinish, status, adler, blocks, head, mark := false, false, Okay, 1, [], 0, 0;
      new;
      Untouched();
    }

    /** Begin a block and write all its bits, in the output buffer or directly
        at the caller's. */
    method RunBlock(flush: Flush, canRaw: bool) returns (ghost b: Body)
      requires Apart() && ring.Valid() && lz.Valid() && out.Valid() && BlocksOk() && !finished && out.flushLeft == 0
      requires Reaches(BlocksOut(blocks), lz.tokens)
      requires canRaw ==> RawReady(ring.dict[..], dictPos, BlocksOut(blocks), lz.tokens)
      modifies out`flushOfs, out.w, out.buf, out.dst, lz.code, lz.count0, lz`codePos
      ensures ValidBody(BlocksOut(blocks), b) && BodyOut(BlocksOut(blocks), b) == Expand(BlocksOut(blocks), lz.tokens)
      ensures b.Stored? || b.tokens == lz.tokens
      ensures out.Writing()
      ensures out.w.full == old(ToBits(out.w.bitBuffer, out.w.bitsIn))
                + FlushBits(blocks == [], cfg.zlib, flush, BlocksOut(blocks), b, adler, old(out.w.bitsIn))
      ensures out.w.Fits()
      ensures Chosen(cfg, canRaw, lz.tokens, BlocksOut(blocks), b,
                     old(out.w.bitsIn) + |Prefix(blocks == [] && cfg.zlib)| + 1)
    {
      hide Chosen, Prefix, ToBits, BytesBits, ValidBody, BodyOut, Expand, Reaches, RawReady, FlushBits, ring.Valid,
           lz.Valid,
           ValidBlocks, BlocksOut, Headed, MarkAt, AllOpen, BodyBits, HeaderBits;
      DictLen(ring);
      out.BeginBlock();
      b := WriteBlock(out.w, lz, ring.dict, cfg, blockIndex == 0, canRaw, dictPos, flush, adler, BlocksOut(blocks));
    }

    /** The bytes of the block, and the one of a waiting match, are all in the dictionary. */
    ghost predicate InRing()
      reads this`savedLen, ring`size, lz`tokens
    {
      TotalLen(lz.tokens) + Waiting() <= ring.size
    }

    /** The test for a stored block. */
    method CanStore() returns (canRaw: bool)
      requires ring.Valid() && ring.Clamped() && lz.Valid() && ParseOk() && dictPos == |BlocksOut(blocks)| % WORD32
      ensures canRaw <==> InRing()
      ensures canRaw ==> RawReady(ring.dict[..], dictPos, BlocksOut(blocks), lz.tokens)
      ensures Reaches(BlocksOut(blocks), lz.tokens)
    {
      hide ring.Valid, lz.Valid, BlocksOut, Parsed, RawReady, Repeats, TotalLen, Reaches;
      canRaw := (ring.pos + WORD32 - dictPos) % WORD32 <= ring.size;
      BufferFacts(lz);
      ParsedFacts(BlocksOut(blocks), lz.tokens, ring.seen, ring.Done() - Waiting(), ring.floor);
      BlockSpan(ring, dictPos, BlocksOut(blocks), lz.tokens, ring.Done() - Waiting());
      if canRaw { RawIsReady(ring, dictPos, BlocksOut(blocks), lz.tokens, ring.Done() - Waiting()); }
    }

    /** Everything but the position in the input, after a block. */
    ghost predicate Closed(flush: Flush)
      reads this`blocks, this`dictPos, this`blockIndex, this`head, this`mark, ring`floor
    {
      && Headed(blocks, head, ring.floor) && MarkAt(cfg.zlib, blocks, head, mark)
      && ValidBlocks(blocks) && blocks != [] && blockIndex != 0 && dictPos == |BlocksOut(blocks)| % WORD32
      && (if flush.Finish? then Closes(blocks) else AllOpen(blocks))
    }

    /** What tdefl_flush_block does after the bits are written. */
    method CloseBlock(flush: Flush, ghost b: Body, ghost pending: seq<bool>)
      requires Apart() && out.Writing() && out.w.Fits() && ParseOk() && BlocksOk() && !finished
      requires lz.code.Length == CODE_BUF_SIZE && lz.count0.Length == LIT_CODES && lz.count1.Length == DIST_CODES
      requires lz.total == TotalLen(lz.tokens)
      requires ValidBody(BlocksOut(blocks), b) && BodyOut(BlocksOut(blocks), b) == Expand(BlocksOut(blocks), lz.tokens)
      requires b.Stored? || b.tokens == lz.tokens
      requires BytesBits(out.sent) + pending == Written(cfg.zlib, blocks)
      requires out.w.full == pending + FlushBits(blocks == [], cfg.zlib, flush, BlocksOut(blocks), b, adler, |pending|)
      modifies this`dictPos, this`blockIndex, this`blocks, lz, lz.count0, lz.count1
      modifies out`ofs, out`flushOfs, out`flushLeft, out`sent, out`delivered, out.dst
      ensures out.Valid() && lz.Valid() && lz.HasRoom() && lz.tokens == [] && ParseOk()
      ensures Closed(flush) && StreamIs(StreamAfter(cfg.zlib, blocks, flush, adler))
      ensures blocks == Flushed(old(blocks), b, flush)
      ensures flush.SyncFlush? || flush.FullFlush? ==> out.w.bitsIn == 0
      ensures old(out.delivered) <= out.delivered && (out.flushLeft > 0 ==> out.ofs == out.dst.Length)
    {
      hide ToBits, BytesBits, ValidBody, BodyOut, Expand, FlushBits, lz.Valid, ValidBlocks, BlocksOut, Headed, MarkAt,
           AllOpen, Parsed, TotalLen, Written, StreamAfter, Closes, Flushed, lz.HasRoom, out.Writing, out.Valid,
             Repeats;
      ghost var bs, ts, k, sent0 := blocks, lz.tokens, ring.Done() - Waiting(), out.sent;
      NewBlocks(cfg.zlib, bs, ts, ring.seen, k, head, ring.floor, b, flush, adler, BytesBits(sent0), pending);
      MarkStays(cfg.zlib, bs, b, flush, head, mark);
      Sum32(|BlocksOut(bs)|, lz.total);
      dictPos := (dictPos + lz.total) % WORD32;
      lz.Reset();
      blockIndex := blockIndex + 1;
      blocks := Flushed(bs, b, flush);
      out.EndBlock();
      WholeStream(out, StreamAfter(cfg.zlib, blocks, flush, adler));
    }

    /** The block is the one that the settings and its tokens ask for. */
    ghost predicate ChosenHere(b: Body)
      reads this`savedLen, this`blocks, ring`size, lz`tokens, out.w, out
    {
      Chosen(cfg, InRing(), lz.tokens, BlocksOut(blocks), b, out.w.bitsIn + |Prefix(blocks == [] && cfg.zlib)| + 1)
    }

    /** tdefl_flush_block, with the assertion at its end. */
    method FlushBlock(flush: Flush) returns (ghost b: Body)
      requires Valid() && !finished && out.flushLeft == 0
      modifies this`dictPos, this`blockIndex, this`blocks, lz, lz.code, lz.count0, lz.count1, out, out.w, out.buf
      modifies out.dst
      ensures out.Valid() && lz.Valid() && lz.HasRoom() && lz.tokens == [] && ParseOk()
      ensures Closed(flush) && StreamIs(StreamAfter(cfg.zlib, blocks, flush, adler))
      ensures blocks == Flushed(old(blocks), b, flush)
      ensures old(ChosenHere(b))
      ensures flush.SyncFlush? || flush.FullFlush? ==> out.w.bitsIn == 0
      ensures out.dst == old(out.dst) && out.earlier == old(out.earlier)
      ensures old(out.delivered) <= out.delivered && (out.flushLeft > 0 ==> out.ofs == out.dst.Length)
    {
      hide Chosen, Prefix, ToBits, BytesBits, ValidBody, BodyOut, Expand, Reaches, RawReady, FlushBits, ring.Valid,
           lz.Valid,
           ValidBlocks, BlocksOut, Headed, MarkAt, AllOpen, Parsed, TotalLen, Written, StreamAfter, Closes, Flushed,
             lz.HasRoom, out.Writing, out.Valid, Repeats, ParseOk, ValidToken;
      ghost var pending := ToBits(out.w.bitBuffer, out.w.bitsIn);
      BufferFacts(lz);
      var canRaw := CanStore();
      b := RunBlock(flush, canRaw);
      WritingMeans(out);
      assert out.w.pos < out.w.end;
      CloseBlock(flush, b, pending);
    }

    // ------------------------------------------------- tdefl_compress_normal

    /** What the search for a match may come back with. */
    ghost predicate Usable(dist: nat, len: nat)
      reads this`savedLen, ring`ahead, ring`seen, ring`floor
    {
      ring.ahead <= |ring.seen| &&
      if dist == 0 then len <= savedLen || len <= MIN_MATCH - 1
      else MIN_MATCH <= len <= ring.ahead && dist <= WINDOW && Repeats(ring.seen, ring.Done(), len, dist, ring.floor)
    }

    /** The search that the flags ask for. */
    ghost function Looked(): (nat, nat)
      requires ring.ahead <= |ring.seen| && Fits(Asked(ring)) && (ring.size > 0 ==> 1 <= ring.Done())
      reads this`savedLen, ring, ring.next
    {
      var q := Asked(ring);
      var len := if savedLen > 0 then savedLen else 2;
      if cfg.forceRaw || (opts.rle && ring.size == 0) then (0, len)
      else if opts.rle then if Common(q, 1) < 3 then (0, 0) else (1, Common(q, 1))
      else FindMatch(q, if len >= 32 then opts.probes1 else opts.probes0, len)
    }

    /** What the parser takes of it: nothing of three bytes from 8192 bytes back on, at
        a distance equal to the place in the ring, or too short for the filter. */
    ghost function Sought(): (nat, nat)
      requires ring.ahead <= |ring.seen| && Fits(Asked(ring)) && (ring.size > 0 ==> 1 <= ring.Done())
      reads this`savedLen, ring, ring.next
    {
      var (dist, len) := Looked();
      if (len == 3 && dist >= 8192) || dist == ring.pos % WINDOW || (opts.filter && len <= 5) then (0, 0)
      else (dist, len)
    }

    /** The search, by bytes or by words. */
    method Look() returns (dist: nat, len: nat)
      requires ring.Valid() && ring.Clamped() && 1 <= ring.ahead <= MAX_MATCH && SavedOk()
      requires opts.probes0 >= 1 && opts.probes1 >= 1
      ensures Fits(Asked(ring)) && (dist, len) == Looked() && Usable(dist, len)
    {
      hide ring.Valid, Repeats, FindMatch, Common;
      AskedFits(ring);
      dist, len := 0, if savedLen > 0 then savedLen else MIN_MATCH - 1;
      if opts.rle || cfg.forceRaw {
        if ring.size > 0 && !cfg.forceRaw {
          len := CountRun(ring);
          if len < MIN_MATCH { len := 0; } else { dist := 1; }
          RunRepeats(ring, len);
        }
      } else {
        var probes := if len >= 32 then opts.probes1 else opts.probes0;
        var len0 := len;
        FindMatchFound(ring, probes, len0);
        if opts.words {
          dist, len := FindMatchWords(ring, probes, len0);
        } else {
          dist, len := FindMatchBytes(ring, probes, len0);
        }
        FoundIsUsable(ring, len0, dist, len);
      }
    }

    method SearchMatch() returns (dist: nat, len: nat)
      requires ring.Valid() && ring.Clamped() && 1 <= ring.ahead <= MAX_MATCH && SavedOk()
      requires opts.probes0 >= 1 && opts.probes1 >= 1
      ensures Fits(Asked(ring)) && (dist, len) == Sought() && Usable(dist, len)
    {
      hide ring.Valid, Repeats, Looked;
      dist, len := Look();
      var here := ring.pos % WINDOW;
      if (len == MIN_MATCH && dist >= 8192) || here == dist || (opts.filter && len <= 5) {
        dist, len := 0, 0;
      }
    }

    method RecordLit(c: byte, ghost k: nat)
      requires lz.Valid() && lz.HasRoom() && Covers(k)
      requires k < |ring.seen| && c == ring.seen[k]
      modifies lz, lz.code, lz.count0
      ensures lz.Valid() && lz.codePos <= CODE_BUF_SIZE - 6
      ensures Covers(k + 1) && lz.tokens == old(lz.tokens) + [Literal(c)]
    {
      hide lz.Valid, BlocksOut, Headed, MarkAt, Parsed;
      ParsedLiteral(BlocksOut(blocks), lz.tokens, ring.seen, k, ring.floor);
      lz.RecordLiteral(c);
    }

    method RecordRep(len: nat, dist: nat, ghost k: nat)
      requires lz.Valid() && lz.codePos + 4 <= CODE_BUF_SIZE && Covers(k)
      requires MIN_MATCH <= len <= MAX_MATCH && dist <= WINDOW && Repeats(ring.seen, k, len, dist, ring.floor)
      modifies lz, lz.code, lz.count0, lz.count1
      ensures lz.Valid() && Covers(k + len) && lz.tokens == old(lz.tokens) + [Match(len, dist)]
    {
      hide lz.Valid, BlocksOut, Headed, MarkAt, Parsed, Repeats;
      RepeatsBounds(ring.seen, k, len, dist, ring.floor);
      ParsedMatch(BlocksOut(blocks), lz.tokens, ring.seen, k, len, dist, ring.floor);
      lz.RecordMatch(len, dist);
    }

    /** The state of SavedOk after the lookahead moves on by `move`. */
    ghost predicate MovedOk(move: nat)
      reads this`savedDist, this`savedLen, this`savedLit, ring`ahead, ring`seen, ring`floor
    {
      && 1 <= move <= ring.ahead <= |ring.seen|
      && (savedLen > 0 ==>
            && MIN_MATCH <= savedLen < 128 && savedLen - 1 <= ring.ahead - move && savedDist <= WINDOW
            && savedLit == ring.seen[ring.Done() + move - 1]
            && Repeats(ring.seen, ring.Done() + move - 1, savedLen, savedDist, ring.floor))
    }

    ghost function Choosing(dist: nat, len: nat): Choice
      requires 0 < ring.ahead <= |ring.seen|
      reads this`savedDist, this`savedLen, this`savedLit, ring`ahead, ring`seen
    {
      Choose(opts.greedy || opts.rle, savedLen, savedDist, savedLit, ring.seen[ring.Done()], dist, len)
    }

    /** The tokens and the waiting match are as chosen; `lit` stood at the position. */
    ghost predicate Took(c: Choice, before: seq<Token>, lit: byte)
      reads this`savedDist, this`savedLen, this`savedLit, lz`tokens
    {
      && lz.tokens == before + c.tokens && savedLen == c.savedLen
      && (savedLen > 0 ==> savedDist == c.savedDist && savedLit == lit)
    }

    ghost predicate Searchable()
      reads ring, ring.next
    {
      0 < ring.ahead <= |ring.seen| && Fits(Asked(ring)) && (ring.size > 0 ==> 1 <= ring.Done())
    }

    /** What the next round will do. */
    ghost function Next(): Choice
      requires Searchable()
      reads this`savedDist, this`savedLen, this`savedLit, ring, ring.next
    {
      var (dist, len) := Sought();
      Choosing(dist, len)
    }

    /** Lazy or greedy: record, or wait for the next position. */
    method Decide(dist: nat, len: nat) returns (move: nat)
      requires ring.Valid() && ring.Clamped() && 1 <= ring.ahead <= MAX_MATCH && lz.Valid() && lz.HasRoom()
      requires ParseOk() && Usable(dist, len) && ring.dict != lz.code
      modifies this`savedDist, this`savedLen, this`savedLit, lz, lz.code, lz.count0, lz.count1
      ensures lz.Valid() && MovedOk(move)
      ensures Covers(ring.Done() + move - Waiting())
      ensures var c := old(Choosing(dist, len));
              Took(c, old(lz.tokens), ring.seen[ring.Done()]) && move == c.move
    {
      hide lz.Valid, ring.Valid, Repeats, Parsed, BlocksOut;
      ghost var done := ring.Done();
      DictLen(ring);
      HereByte(ring);
      RoomForTwo(lz);
      var here := ring.pos % WINDOW;
      if savedLen > 0 {
        if len > savedLen {
          RecordLit(savedLit, done - 1);
          if len >= 128 {
            RecordRep(len, dist, done);
            savedLen, move := 0, len;
          } else {
            savedLit, savedDist, savedLen, move := ring.dict[here], dist, len, 1;
          }
        } else {
          RecordRep(savedLen, savedDist, done - 1);
          move, savedLen := savedLen - 1, 0;
        }
      } else if dist == 0 {
        RecordLit(ring.dict[here], done);
        move := 1;
      } else if opts.greedy || opts.rle || len >= 128 {
        RecordRep(len, dist, done);
        move := len;
      } else {
        savedLit, savedDist, savedLen, move := ring.dict[here], dist, len, 1;
      }
    }

    /** Fill the lookahead. */
    method Take(src: seq<byte>, at: nat) returns (n: nat)
      requires Valid() && at <= |src| && ring.ahead <= MAX_MATCH
      modifies ring`seen, ring`ahead, ring`size, ring.dict, ring.next, ring.hash
      ensures Valid() && n <= |src| - at && ring.seen == old(ring.seen) + src[at..at + n]
        && ring.ahead == old(ring.ahead) + n
      ensures n == if |src| - at < MAX_MATCH - old(ring.ahead) then |src| - at else MAX_MATCH - old(ring.ahead)
      ensures old(ring.Linked()) ==> ring.Linked()
    {
      hide ring.Links, ring.Unentered, EnterAll, NoChains, ring.Linked, lz.Valid, out.Valid, ring.Valid, Parsed,
           Repeats, ValidBlocks, BlocksOut, Headed, MarkAt, AllOpen, Closes,
           StreamIs, FinishedBits, Written;
      ghost var seen, done := ring.seen, ring.Done();
      n := ring.Refill(src, at);
      ParsedGrows(BlocksOut(blocks), lz.tokens, seen, src[at..at + n], done - Waiting(), ring.floor);
      if savedLen > 0 { RepeatsGrows(seen, src[at..at + n], done - 1, savedLen, savedDist, ring.floor); }
    }

    /** One round of the parser: search, decide, move the lookahead. */
    method ParseOne()
      requires Valid() && 1 <= ring.ahead <= MAX_MATCH && lz.HasRoom()
      modifies this`savedDist, this`savedLen, this`savedLit, lz, lz.code, lz.count0, lz.count1, ring`pos, ring`ahead
      modifies ring`size
      ensures Valid() && ring.ahead < old(ring.ahead)
      ensures old(Searchable())
      ensures Took(old(Next()), old(lz.tokens), old(ring.seen[ring.Done()]))
      ensures ring.ahead == old(ring.ahead) - old(Next()).move
      ensures old(ring.Linked()) ==> ring.Linked()
    {
      hide ring.Linked, lz.Valid, out.Valid, ring.Valid, Parsed, Repeats, ValidBlocks, BlocksOut, Headed, MarkAt,
           AllOpen, Closes,
           StreamIs, FinishedBits, Written, Usable, Sought, Choose, Took;
      var dist, len := SearchMatch();
      var move := Decide(dist, len);
      ring.Advance(move);
    }

    predicate TimeToFlush()
      reads lz
    {
      || lz.codePos > CODE_BUF_SIZE - 8
      || (lz.total > 31 * 1024 && (lz.codePos * 115 / 128 >= lz.total || cfg.forceRaw))
    }

    /** When a block is cut: its buffer is full, or it is long and does not get shorter. */
    ghost predicate BlockFull(ts: seq<Token>)
    {
      var n := Off(ts, |ts|);
      n > CODE_BUF_SIZE - 8 || (TotalLen(ts) > 31744 && (n * 115 / 128 >= TotalLen(ts) || cfg.forceRaw))
    }

    lemma TimeIsFull()
      requires lz.Valid()
      ensures TimeToFlush() <==> BlockFull(lz.tokens)
    {
    }

    /** A block in the middle of the input. */
    method FlushOpen() returns (ghost b: Body)
      requires Valid() && !finished && out.flushLeft == 0
      modifies this`dictPos, this`blockIndex, this`blocks, lz, lz.code, lz.count0, lz.count1, out, out.w, out.buf
      modifies out.dst
      ensures blocks == old(blocks) + [Block(false, b)] && lz.tokens == [] && old(ChosenHere(b))
      ensures Valid() && lz.HasRoom() && out.dst == old(out.dst) && out.earlier == old(out.earlier)
      ensures old(out.delivered) <= out.delivered && (out.flushLeft > 0 ==> out.ofs == out.dst.Length)
    {
      hide ChosenHere, Chosen, Prefix, lz.Valid, out.Valid, ring.Valid, ParseOk, ValidBlocks, BlocksOut, Headed,
           MarkAt, AllOpen, Closes, StreamIs,
           OpenBits, lz.HasRoom, FlushBits, ValidBody, ToBits;
      b := FlushBlock(NoFlush);
    }

    lemma BufferValid()
      requires Valid()
      ensures lz.Valid()
    {
    }

    /** One round of the parser, and a block if the buffer is full. */
    method ParseRound()
      requires Valid() && 1 <= ring.ahead <= MAX_MATCH && lz.HasRoom() && out.flushLeft == 0 && !finished
      modifies this`savedDist, this`savedLen, this`savedLit, this`dictPos, this`blockIndex, this`blocks
      modifies ring`pos, ring`ahead, ring`size, lz, lz.code, lz.count0, lz.count1, out, out.w, out.buf, out.dst
      ensures Valid() && ring.ahead < old(ring.ahead) && lz.HasRoom() && out.dst == old(out.dst)
        && out.earlier == old(out.earlier)
      ensures old(out.delivered) <= out.delivered && (out.flushLeft > 0 ==> out.ofs == out.dst.Length)
      ensures old(ring.Linked()) ==> ring.Linked()
      ensures old(Searchable())
      ensures var ts := old(lz.tokens + Next().tokens);
              if BlockFull(ts) then lz.tokens == [] && OneMore(old(blocks), blocks)
              else lz.tokens == ts && blocks == old(blocks)
    {
      hide ring.Linked, Valid, lz.HasRoom, Searchable, Next, lz.Valid, BlockFull, ChosenHere;
      ParseOne();
      BufferValid();
      TimeIsFull();
      if TimeToFlush() {
        ghost var b := FlushOpen();
      } else {
        StillRoom(lz);
      }
    }

    /** tdefl_compress_normal: how much of the input was consumed. */
    method CompressNormal(src: seq<byte>, flush: Flush) returns (at: nat)
      requires Valid() && ring.ahead <= MAX_MATCH && lz.HasRoom() && out.flushLeft == 0 && !finished
      modifies this`savedDist, this`savedLen, this`savedLit, this`dictPos, this`blockIndex, this`blocks
      modifies ring`pos, ring`ahead, ring`size, ring`seen, ring.dict, ring.next, ring.hash, lz, lz.code, lz.count0
      modifies lz.count1, out, out.w, out.buf, out.dst
      ensures Valid() && ring.ahead <= MAX_MATCH && lz.HasRoom() && at <= |src|
        && ring.seen == old(ring.seen) + src[..at]
      ensures out.dst == old(out.dst) && out.earlier == old(out.earlier) && old(out.delivered) <= out.delivered
      ensures out.flushLeft > 0 ==> out.ofs == out.dst.Length
      ensures out.flushLeft == 0 ==> at == |src| && (!flush.NoFlush? ==> ring.ahead == 0)
      ensures |src| - at + ring.ahead <= |src| + old(ring.ahead)
        && (out.flushLeft > 0 ==> |src| - at + ring.ahead < |src| + old(ring.ahead))
      ensures old(ring.Linked()) ==> ring.Linked()
    {
      hide Searchable, Next, BlockFull, OneMore, ring.Linked, Valid, lz.HasRoom;
      at := 0;
      assert ring.seen == old(ring.seen) + src[..0];
      while at < |src| || (flush != NoFlush && ring.ahead > 0)
        invariant Valid() && ring.ahead <= MAX_MATCH && lz.HasRoom() && out.flushLeft == 0 && at <= |src|
        invariant ring.seen == old(ring.seen) + src[..at] && |src| - at + ring.ahead <= |src| + old(ring.ahead)
        invariant out.dst == old(out.dst) && out.earlier == old(out.earlier) && old(out.delivered) <= out.delivered
        invariant old(ring.Linked()) ==> ring.Linked()
        decreases |src| - at + ring.ahead
      {
        var n := Take(src, at);
        assert src[..at] + src[at..at + n] == src[..at + n];
        at := at + n;
        if flush == NoFlush && ring.ahead < MAX_MATCH { break; }
        ParseRound();
        if out.flushLeft != 0 { return; }
      }
    }

    // --------------------------------------------------- tdefl_compress_fast

    method TakeRuns(src: seq<byte>, at: nat) returns (n: nat)
      requires Valid() && at <= |src| && ring.ahead <= FAST_AHEAD
      modifies ring`seen, ring`ahead, ring`size, ring.dict
      ensures Valid() && n <= |src| - at && ring.seen == old(ring.seen) + src[at..at + n]
        && ring.ahead == old(ring.ahead) + n
      ensures n == if |src| - at < FAST_AHEAD - old(ring.ahead) then |src| - at else FAST_AHEAD - old(ring.ahead)
    {
      hide lz.Valid, out.Valid, ring.Valid, Parsed, Repeats, ValidBlocks, BlocksOut, Headed, MarkAt, AllOpen, Closes,
           StreamIs, FinishedBits, Written;
      ghost var seen, done := ring.seen, ring.Done();
      n := if |src| - at < FAST_AHEAD - ring.ahead then |src| - at else FAST_AHEAD - ring.ahead;
      ring.RefillRuns(src, at, n);
      ParsedGrows(BlocksOut(blocks), lz.tokens, seen, src[at..at + n], done - Waiting(), ring.floor);
      if savedLen > 0 { RepeatsGrows(seen, src[at..at + n], done - 1, savedLen, savedDist, ring.floor); }
    }

    method RecordFast(dist: nat, len: nat)
      requires ring.Valid() && ring.Clamped() && lz.Valid() && lz.HasRoom() && ring.dict != lz.code
        && 1 <= len <= ring.ahead
      requires Covers(ring.Done())
      requires len > 1 ==>
        MIN_MATCH <= len <= MAX_MATCH && dist <= WINDOW && Repeats(ring.seen, ring.Done(), len, dist, ring.floor)
      modifies lz, lz.code, lz.count0, lz.count1
      ensures lz.Valid() && Covers(ring.Done() + len)
      ensures lz.tokens
           == old(lz.tokens) + [if len > 1 then Match(len, dist) else Literal(ring.seen[ring.Done()])]
    {
      hide lz.Valid, ring.Valid, Parsed, Repeats, BlocksOut;
      if len > 1 {
        RoomForTwo(lz);
        RecordRep(len, dist, ring.Done());
      } else {
        DictLen(ring);
        HereByte(ring);
        RecordLit(ring.dict[ring.pos % WINDOW], ring.Done());
      }
    }

    ghost predicate Probes()
      reads ring, ring.next, ring.hash
    {
      && 0 < ring.ahead <= |ring.seen| && Fits(Asked(ring)) && ring.hash.Length == HASH_SIZE
      && Ahead(Asked(ring)) == ring.ahead
    }

    /** How far the place under the hash of the next three bytes lies back. */
    ghost function FastDistance(): nat
      requires Probes() && ring.ahead >= 4
      reads ring, ring.next, ring.hash
    {
      (ring.pos + WORD32 - ring.hash[FastHash(FirstThree(Asked(ring)))]) % 65536
    }

    /** What the next round of the fast parser will do. */
    ghost function FastNext(): (Token, nat)
      requires Probes()
      reads ring, ring.next, ring.hash
    {
      var len := if ring.ahead >= 4 then FastLength(Asked(ring), FastDistance()) else 1;
      (if len > 1 then Match(len, FastDistance()) else Literal(ring.seen[ring.Done()]), len)
    }

    /** Probe, unless fewer than four bytes are left. */
    method LookFast() returns (dist: nat, len: nat)
      requires ring.Valid() && ring.Clamped() && 1 <= ring.ahead
      modifies ring.hash
      ensures ring.Valid() && old(Probes()) && 1 <= len <= ring.ahead
      ensures len > 1 ==>
        MIN_MATCH <= len <= MAX_MATCH && dist <= WINDOW && Repeats(ring.seen, ring.Done(), len, dist, ring.floor)
      ensures old(FastNext()) == (if len > 1 then Match(len, dist) else Literal(ring.seen[ring.Done()]), len)
    {
      hide Mirrored, Holds, Repeats, FastLength, FastHash, FirstThree;
      AskedFits(ring);
      dist, len := 0, 1;
      if ring.ahead >= 4 {
        dist, len := FastProbe(ring);
        FastLengthRepeats(ring, dist);
      }
    }

    /** One token of the fast parser; the last three bytes are literals. */
    method ParseFast()
      requires Valid() && 1 <= ring.ahead && lz.HasRoom() && savedLen == 0
      modifies lz, lz.code, lz.count0, lz.count1, ring`pos, ring`ahead, ring`size, ring.hash
      ensures Valid() && old(Probes()) && ring.ahead < old(ring.ahead)
      ensures lz.tokens == old(lz.tokens) + [old(FastNext()).0] && ring.ahead == old(ring.ahead) - old(FastNext()).1
    {
      hide lz.Valid, out.Valid, ring.Valid, Parsed, Repeats, ValidBlocks, BlocksOut, Headed, MarkAt, AllOpen, Closes,
           StreamIs, FinishedBits, Written, FastNext, Probes;
      var dist, len := LookFast();
      RecordFast(dist, len);
      ring.Advance(len);
    }

    /** tdefl_compress_fast: how much of the input was consumed. */
    method CompressFast(src: seq<byte>, flush: Flush) returns (at: nat)
      requires Valid() && ring.ahead <= FAST_AHEAD && savedLen == 0 && lz.HasRoom() && out.flushLeft == 0 && !finished
      modifies this`dictPos, this`blockIndex, this`blocks
      modifies ring`pos, ring`ahead, ring`size, ring`seen, ring.dict, ring.hash, lz, lz.code, lz.count0, lz.count1, out
      modifies out.w, out.buf, out.dst
      ensures Valid() && ring.ahead <= FAST_AHEAD && lz.HasRoom() && at <= |src|
        && ring.seen == old(ring.seen) + src[..at]
      ensures out.dst == old(out.dst) && out.earlier == old(out.earlier) && old(out.delivered) <= out.delivered
      ensures out.flushLeft > 0 ==> out.ofs == out.dst.Length
      ensures out.flushLeft == 0 ==> at == |src| && (!flush.NoFlush? ==> ring.ahead == 0)
      ensures |src| - at + ring.ahead <= |src| + old(ring.ahead)
        && (out.flushLeft > 0 ==> |src| - at + ring.ahead < |src| + old(ring.ahead))
    {
      hide ChosenHere, Chosen, Valid, lz.HasRoom, FastNext, Probes;
      at := 0;
      assert ring.seen == old(ring.seen) + src[..0];
      while at < |src| || (flush != NoFlush && ring.ahead > 0)
        invariant Valid() && ring.ahead <= FAST_AHEAD && lz.HasRoom() && out.flushLeft == 0 && at <= |src|
        invariant ring.seen == old(ring.seen) + src[..at] && |src| - at + ring.ahead <= |src| + old(ring.ahead)
        invariant out.dst == old(out.dst) && out.earlier == old(out.earlier) && old(out.delivered) <= out.delivered
        decreases |src| - at + ring.ahead
      {
        var n := TakeRuns(src, at);
        assert src[..at] + src[at..at + n] == src[..at + n];
        at := at + n;
        if flush == NoFlush && ring.ahead < FAST_AHEAD { break; }
        ghost var before := ring.ahead;
        while ring.ahead > 0
          invariant Valid() && ring.ahead <= before && lz.HasRoom() && out.flushLeft == 0
          invariant ring.seen == old(ring.seen) + src[..at]
          invariant out.dst == old(out.dst) && out.earlier == old(out.earlier) && old(out.delivered) <= out.delivered
          decreases ring.ahead
        {
          ParseFast();
          if lz.codePos > CODE_BUF_SIZE - 8 {
            ghost var b := FlushOpen();
            if out.flushLeft != 0 { return; }
          } else {
            StillRoom(lz);
          }
        }
      }
    }

    // --------------------------------------------------------- tdefl_compress

    predicate UsesFast()
    {
      opts.fastParse && opts.greedy && !opts.filter && !cfg.forceRaw && !opts.rle
    }

    predicate Checks()
    {
      cfg.zlib || opts.checksum
    }

    /** Between two calls. */
    ghost predicate Idle()
      reads this, ring, ring.next, ring.hash, lz, out
    {
      && (if UsesFast() then savedLen == 0 && ring.ahead <= FAST_AHEAD else ring.ahead <= MAX_MATCH)
      && lz.HasRoom() && (Checks() ==> adler == Adler32(1, ring.seen))
      && (finished ==> wantsToFinish && ring.ahead == 0 && savedLen == 0 && lz.tokens == [])
      && (!UsesFast() ==> ring.Linked())
    }

    /** A sync or full flush was the last thing that was written: everything consumed
        is in whole bytes of blocks. */
    ghost predicate Synced()
      reads this`finished, this`blocks, this`savedLen, ring`ahead, lz`tokens, out.w`bitsIn
    {
      !finished && blocks != [] && ring.ahead == 0 && savedLen == 0 && lz.tokens == [] && out.w.bitsIn == 0
    }

    method NewAdler(data: seq<byte>)
      requires Valid() && !finished && adler < 0x1_0000_0000
      modifies this`adler
      ensures Valid() && adler == Adler32(old(adler), data)
    {
      hide lz.Valid, out.Valid, ring.Valid, ParseOk, ValidBlocks, BlocksOut, Headed, MarkAt, AllOpen, Closes, StreamIs,
           FinishedBits, Written, Adler32;
      adler := Update(adler, data);
    }

    /** Parse the input and bring the checksum up to date. */
    method Consume(src: seq<byte>, flush: Flush) returns (at: nat)
      requires Valid() && Idle() && out.flushLeft == 0 && !finished
      modifies this`savedDist, this`savedLen, this`savedLit, this`dictPos, this`blockIndex, this`blocks, this`adler
      modifies ring`pos, ring`ahead, ring`size, ring`seen, ring.dict, ring.next, ring.hash, lz, lz.code, lz.count0
      modifies lz.count1, out, out.w, out.buf, out.dst
      ensures Valid() && Idle() && at <= |src| && ring.seen == old(ring.seen) + src[..at]
      ensures out.dst == old(out.dst) && out.earlier == old(out.earlier) && old(out.delivered) <= out.delivered
      ensures out.flushLeft > 0 ==> out.ofs == out.dst.Length
      ensures out.flushLeft == 0 ==> at == |src| && (!flush.NoFlush? ==> ring.ahead == 0)
      ensures |src| - at + ring.ahead <= |src| + old(ring.ahead)
        && (out.flushLeft > 0 ==> |src| - at + ring.ahead < |src| + old(ring.ahead))
    {
      hide Valid, lz.HasRoom, Adler32, Sum;
      ghost var seen := ring.seen;
      if UsesFast() {
        at := CompressFast(src, flush);
      } else {
        at := CompressNormal(src, flush);
      }
      if Checks() {
        FirstAdler(seen);
        AdlerConcat(1, seen, src[..at]);
        NewAdler(src[..at]);
      }
    }

    /** Everything that was written is in front of the last full flush. */
    ghost predicate Refreshed()
      reads this`blocks, this`head, this`mark, ring`seen, ring`floor, out`sent
    {
      head == |blocks| > 0 && ring.floor == |ring.seen| && mark == |out.sent|
    }

    lemma AtMark()
      requires Valid() && Synced()
      ensures Headed(blocks, |blocks|, |ring.seen|)
        && Parsed(BlocksOut(blocks), [], ring.seen, |ring.seen|, |ring.seen|)
      ensures MarkAt(cfg.zlib, blocks, |blocks|, |out.sent|)
    {
      hide lz.Valid, out.Valid, ring.Valid, ValidBlocks, BlocksOut, Headed, AllOpen, OpenBits, BytesBits, ToBits;
      assert blocks[..|blocks|] == blocks;
      AllCovered(blocks, ring.seen, ring.floor);
      BytesBitsLen(out.sent);
      assert |ToBits(out.w.bitBuffer, 0)| == 0;
    }

    /** After the block of a full flush the dictionary is given up. */
    method Refresh()
      requires Valid() && Synced()
      modifies this`head, this`mark, ring`size, ring`floor, ring.next, ring.hash
      ensures Valid() && Refreshed() && ring.Linked()
    {
      hide ring.Linked, ring.Links, EnterAll, NoChains, lz.Valid, out.Valid, ring.Valid, ValidBlocks, BlocksOut,
           Headed, MarkAt, AllOpen, Closes, StreamIs,
           FinishedBits, OpenBits, Parsed, Repeats;
      AtMark();
      ring.Forget();
      head, mark := |blocks|, |out.sent|;
    }

    /** The flush at the end of a call; the last block if the stream ends. */
    method FlushAll(flush: Flush)
      requires Valid() && Idle() && out.flushLeft == 0 && !finished && ring.ahead == 0 && flush != NoFlush
      requires wantsToFinish || flush != Finish
      modifies this`dictPos, this`blockIndex, this`blocks, this`finished, this`head, this`mark, ring`size, ring`floor
      modifies ring.next, ring.hash
      modifies lz, lz.code, lz.count0, lz.count1, out, out.w, out.buf, out.dst
      ensures Valid() && Idle() && finished == (flush == Finish) && (!finished ==> Synced())
      ensures if flush == FullFlush then Refreshed()
        else head == old(head) && mark == old(mark) && ring.floor == old(ring.floor)
      ensures out.dst == old(out.dst) && out.earlier == old(out.earlier) && old(out.delivered) <= out.delivered
    {
      hide ChosenHere, Chosen, Flushed, lz.Valid, out.Valid, ring.Valid, ValidBlocks, BlocksOut, Headed, MarkAt,
           AllOpen, Closes, StreamIs,
           FinishedBits, OpenBits, Adler32, Parsed, Repeats, lz.HasRoom, FlushBits, ValidBody, ToBits;
      ghost var b := FlushBlock(flush);
      finished := flush == Finish;
      if flush == FullFlush { Refresh(); }
    }

    method Refuse()
      requires Valid() && Idle()
      modifies this`status
      ensures Valid() && Idle() && status == BadParam
    {
      hide lz.Valid, out.Valid, ring.Valid, ParseOk, ValidBlocks, BlocksOut, Headed, MarkAt, AllOpen, Closes, StreamIs,
           FinishedBits, Written, Adler32, lz.HasRoom;
      status := BadParam;
    }

    method Begin(dst: array?<byte>, finishing: bool)
      requires Valid() && Idle() && out.callback == (dst == null)
      requires dst != null ==> dst != ring.dict && dst != lz.code && dst != out.buf
      modifies this`wantsToFinish, out`dst, out`ofs, out`earlier
      ensures Valid() && Idle() && wantsToFinish == (old(wantsToFinish) || finishing)
      ensures dst != null ==> out.dst == dst && out.ofs == 0 && out.earlier == out.delivered
      ensures dst == null ==> out.dst == old(out.dst)
    {
      hide lz.Valid, out.Valid, ring.Valid, ParseOk, ValidBlocks, BlocksOut, Headed, MarkAt, AllOpen, Closes,
           FinishedBits, Written, Adler32, lz.HasRoom, BytesBits, ToBits;
      wantsToFinish := wantsToFinish || finishing;
      if dst != null { out.NewCall(dst); }
    }

    /** tdefl_flush_output_buffer and the status that goes with it. */
    method Report() returns (st: Status, made: nat)
      requires Valid() && Idle()
      modifies this`status, out`ofs, out`flushOfs, out`flushLeft, out`delivered, out.dst
      ensures Valid() && Idle() && st == status == (if finished && out.flushLeft == 0 then Complete else Okay)
      ensures out.dst == old(out.dst) && out.flushLeft == old(out.flushLeft - out.Due())
      ensures made == out.ofs && old(out.delivered) <= out.delivered && (out.flushLeft > 0 ==> made == out.dst.Length)
      ensures !out.callback ==> made <= out.dst.Length && out.delivered == out.earlier + out.dst[..made]
    {
      hide lz.Valid, ring.Valid, ParseOk, BlocksOk, ValidBlocks, FinishedBits, Written, Adler32, lz.HasRoom, BytesBits,
           ToBits;
      out.FlushOutput();
      status := if finished && out.flushLeft == 0 then Complete else Okay;
      st, made := status, out.ofs;
    }

    /** The work left: input and lookahead, and the last block. */
    ghost function Left(rest: nat): nat
      reads this`finished, ring`ahead
    {
      rest + ring.ahead + (if finished then 0 else 1)
    }

    /** The callback takes everything at once. */
    lemma NonePending()
      requires Valid()
      ensures out.callback ==> out.flushLeft == 0
    {
      hide lz.Valid, ring.Valid, ParseOk, BlocksOk, StreamOk, BytesBits, ToBits;
    }

    /** Parsing, and the flush asked for if all of the input is done. */
    method Work(src: seq<byte>, flush: Flush) returns (used: nat)
      requires Valid() && Idle() && out.flushLeft == 0 && !finished && (wantsToFinish || flush != Finish)
      modifies this`savedDist, this`savedLen, this`savedLit, this`dictPos, this`blockIndex, this`blocks, this`adler
      modifies this`finished
      modifies this`head, this`mark, ring`floor
      modifies ring`pos, ring`ahead, ring`size, ring`seen, ring.dict, ring.next, ring.hash, lz, lz.code, lz.count0
      modifies lz.count1, out, out.w, out.buf, out.dst
      ensures Valid() && Idle() && used <= |src| && ring.seen == old(ring.seen) + src[..used]
      ensures out.dst == old(out.dst) && out.earlier == old(out.earlier) && old(out.delivered) <= out.delivered
      ensures finished ==> used == |src| && flush == Finish
      ensures out.callback ==> used == |src| && (flush == Finish ==> finished)
      ensures flush == Finish ==> Left(|src| - used) < old(Left(|src|))
      ensures flush == SyncFlush || flush == FullFlush ==> Synced() || (out.flushLeft > 0 && out.ofs == out.dst.Length)
      ensures flush == FullFlush ==> Refreshed() || (out.flushLeft > 0 && out.ofs == out.dst.Length)
      ensures flush != FullFlush ==> head == old(head) && mark == old(mark) && ring.floor == old(ring.floor)
    {
      hide Valid, Idle, lz.Valid, ring.Valid, Synced, Refreshed;
      used := Consume(src, flush);
      NonePending();
      if flush != NoFlush && ring.ahead == 0 && used == |src| && out.flushLeft == 0 {
        FlushAll(flush);
      }
    }

    /** What an accepted call has done with the input. */
    twostate predicate Served(src: seq<byte>, flush: Flush, used: nat)
      requires used <= |src|
      reads this, ring, lz, out, out.w
    {
      && ring.seen == old(ring.seen) + src[..used]
      && (old(finished) ==> finished && used == 0)
      && (finished && !old(finished) ==> used == |src| && flush == Finish)
      && (out.callback && !old(finished) ==> used == |src| && (flush == Finish ==> finished))
      && (flush == SyncFlush || flush == FullFlush ==>
            old(out.flushLeft) > 0 || old(finished) || out.flushLeft > 0 || Synced())
      && (flush == FullFlush ==> old(out.flushLeft) > 0 || old(finished) || out.flushLeft > 0 || Refreshed())
      && (old(Synced()) && old(out.flushLeft) > 0 ==> Synced())
      && (flush != FullFlush ==> head == old(head) && mark == old(mark) && ring.floor == old(ring.floor))
    }

    /** The part of a call behind the checks: the work, and the output that is due. */
    method Serve(src: seq<byte>, flush: Flush) returns (st: Status, used: nat, made: nat)
      requires Valid() && Idle() && (wantsToFinish || flush != Finish) && (!out.callback ==> out.ofs == 0)
      modifies this, ring, ring.dict, ring.next, ring.hash, lz, lz.code, lz.count0, lz.count1, out, out.w, out.buf
      modifies out.dst
      ensures Valid() && Idle() && st == status == (if finished && out.flushLeft == 0 then Complete else Okay)
      ensures used <= |src| && Served(src, flush, used) && wantsToFinish == old(wantsToFinish)
      ensures out.dst == old(out.dst) && out.earlier == old(out.earlier) && made == out.ofs
        && (out.flushLeft > 0 ==> made == out.dst.Length)
      ensures !out.callback ==> made <= out.dst.Length && out.delivered == out.earlier + out.dst[..made]
      ensures st == Okay && flush == Finish && (!out.callback ==> out.dst.Length > 0) ==>
        var before, after := old(Left(|src|)), Left(|src| - used);
        after < before || (after == before && out.flushLeft < old(out.flushLeft))
    {
      hide Valid, Idle, lz.Valid, ring.Valid, Synced, Refreshed;
      used, made := 0, 0;
      NonePending();
      if out.flushLeft > 0 || finished {
        st, made := Report();
        return;
      }
      used := Work(src, flush);
      NonePending();
      st, made := Report();
    }

    /** One call: the status, the input consumed, the output made. */
    method Compress(src: seq<byte>, dst: array?<byte>, flush: Flush) returns (st: Status, used: nat, made: nat)
      requires Valid() && Idle()
      requires dst != null ==> dst != ring.dict && dst != lz.code && dst != out.buf
      modifies this, ring, ring.dict, ring.next, ring.hash, lz, lz.code, lz.count0, lz.count1, out, out.w, out.buf
      modifies out.dst
      modifies if dst == null then {} else {dst}
      ensures st == status && used <= |src| && ring.seen == old(ring.seen) + src[..used]
      ensures Valid() && Idle()
      ensures st == BadParam <==>
        old(status) != Okay || out.callback == (dst != null) || (old(wantsToFinish) && flush != Finish)
      ensures st != BadParam ==> (st == Complete <==> finished && out.flushLeft == 0)
      ensures dst != null ==> made <= dst.Length && out.delivered == old(out.delivered) + dst[..made]
      ensures old(finished) ==> finished && used == 0
      ensures finished && !old(finished) ==> used == |src| && flush == Finish
      ensures if dst != null && st != BadParam then out.dst == dst else out.dst == old(out.dst)
      ensures st != BadParam ==> wantsToFinish == (old(wantsToFinish) || flush == Finish)
      ensures st == Okay && flush == Finish && (dst != null ==> dst.Length > 0) ==>
        var before, after := old(Left(|src|)), Left(|src| - used);
        after < before || (after == before && out.flushLeft < old(out.flushLeft))
      ensures out.callback && (st == Okay || st == Complete) && !old(finished) ==>
        used == |src| && (flush == Finish ==> st == Complete)
      ensures dst != null && st != BadParam && made < dst.Length ==> out.flushLeft == 0
      ensures st == Okay && (flush == SyncFlush || flush == FullFlush) && old(out.flushLeft) == 0 && out.flushLeft == 0
        ==> Synced()
      ensures st == Okay && flush == FullFlush && old(out.flushLeft) == 0 && out.flushLeft == 0 ==> Refreshed()
      ensures old(Synced()) && old(out.flushLeft) > 0 ==> Synced()
      ensures flush != FullFlush ==> head == old(head) && mark == old(mark) && ring.floor == old(ring.floor)
    {
      hide Valid, Idle, lz.Valid, ring.Valid, Synced, Refreshed;
      if out.callback == (dst != null) || status != Okay || (wantsToFinish && flush != Finish) {
        Refuse();
        return status, 0, 0;
      }
      NonePending();
      Begin(dst, flush == Finish);
      st, used, made := Serve(src, flush);
      NonePending();
    }
  }

  lemma BufferCounts(lz: LzBuffer)
    requires lz.Valid()
    ensures lz.count0 != lz.count1
  {
  }

  /** tdefl_init: the probe counts follow from the low twelve bits of the flags. */
  method NewCompressor(cfg: Settings, maxProbes: nat, greedy: bool, rle: bool, filter: bool, checksum: bool,
                       words: bool, callback: bool)
    returns (c: Compressor)
    ensures fresh(c) && fresh(c.ring) && fresh(c.ring.dict) && fresh(c.ring.next) && fresh(c.ring.hash)
    ensures fresh(c.lz) && fresh(c.lz.code) && fresh(c.lz.count0) && fresh(c.lz.count1)
    ensures fresh(c.out) && fresh(c.out.w) && fresh(c.out.buf) && fresh(c.out.dst)
    ensures c.Valid() && c.Idle() && c.cfg == cfg && c.out.callback == callback
    ensures c.status == Okay && !c.finished && !c.wantsToFinish && c.ring.seen == [] && c.out.delivered == []
    ensures c.opts.greedy == greedy && c.opts.rle == rle && c.opts.filter == filter && c.opts.checksum == checksum
    ensures 3 * c.opts.probes0 - 5 <= maxProbes % 4096 <= 3 * c.opts.probes0 - 3
    ensures 3 * c.opts.probes1 - 5 <= maxProbes % 4096 / 4 <= 3 * c.opts.probes1 - 3
    ensures c.opts.fastParse <==> words && maxProbes % 4096 == 1
  {
    hide Compressor.Valid, Ring.Valid, LzBuffer.Valid, Output.Valid;
    var p := maxProbes % 4096;
    var opts := Options(1 + (p + 2) / 3, 1 + (p / 4 + 2) / 3, greedy, rle, filter, checksum, words && p == 1, words);
    var ring := new Ring();
    var lz := new LzBuffer();
    var out := new Output(callback);
    BufferCounts(lz);
    c := new Compressor(cfg, opts, ring, lz, out);
    FirstAdler([]);
    AdlerConcat(1, [], []);
  }
}
